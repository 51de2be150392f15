/** Raw bytes as they travel over the TCP link and in UDP datagrams. */
module Bytes {

  newtype Byte = x: int | 0 <= x < 256

  /** The byte stream obtained by joining chunks end to end. */
  function Concat(chunks: seq<seq<Byte>>): seq<Byte>
  {
    if |chunks| == 0 then [] else chunks[0] + Concat(chunks[1..])
  }

  lemma {:induction false} ConcatAppend(a: seq<seq<Byte>>, b: seq<seq<Byte>>)
    ensures Concat(a + b) == Concat(a) + Concat(b)
  {
    if |a| == 0 {
      assert a + b == b;
    } else {
      assert (a + b)[1..] == a[1..] + b;
      ConcatAppend(a[1..], b);
    }
  }

  /** Regrouping a concatenation, as a step a proof can name. */
  lemma AppendAssoc<T>(a: seq<T>, b: seq<T>, c: seq<T>)
    ensures a + (b + c) == (a + b) + c
  {
  }

  /** The non-empty chunks, in order. */
  function NonEmpty(chunks: seq<seq<Byte>>): seq<seq<Byte>>
  {
    if |chunks| == 0 then []
    else (if |chunks[0]| > 0 then [chunks[0]] else []) + NonEmpty(chunks[1..])
  }

  /** Dropping empty chunks changes neither the joined bytes nor adds chunks. */
  lemma {:induction false} ConcatNonEmpty(chunks: seq<seq<Byte>>)
    ensures Concat(NonEmpty(chunks)) == Concat(chunks)
    ensures |NonEmpty(chunks)| <= |chunks|
  {
    if |chunks| > 0 {
      ConcatNonEmpty(chunks[1..]);
      var head := if |chunks[0]| > 0 then [chunks[0]] else [];
      ConcatAppend(head, NonEmpty(chunks[1..]));
      if |chunks[0]| > 0 {
        assert Concat(head) == chunks[0] + Concat([]);
      } else {
        assert chunks[0] == [];
      }
    }
  }
}
