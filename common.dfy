/** Shared vocabulary of the stream transport model: bytes, optional values,
    and the concatenation of a list of memory spans. */
module Common {

  /** One octet of a memory span or of the byte stream on the socket. */
  newtype byte = x: int | 0 <= x < 256

  datatype Option<+T> = None | Some(value: T)

  /** The bytes of a list of memory spans, in order. */
  function Flatten(spans: seq<seq<byte>>): (r: seq<byte>)
  {
    if spans == [] then [] else spans[0] + Flatten(spans[1..])
  }

  lemma {:induction false} FlattenAppend(a: seq<seq<byte>>, b: seq<seq<byte>>)
    ensures Flatten(a + b) == Flatten(a) + Flatten(b)
  {
    if a != [] {
      assert (a + b)[0] == a[0] && (a + b)[1..] == a[1..] + b;
      FlattenAppend(a[1..], b);
      calc {
        Flatten(a + b);
        a[0] + Flatten(a[1..] + b);
        a[0] + (Flatten(a[1..]) + Flatten(b));
        (a[0] + Flatten(a[1..])) + Flatten(b);
      }
    } else {
      assert a + b == b;
    }
  }

  /** Splitting the span list at k splits its bytes at the length of the first part. */
  lemma FlattenSplit(spans: seq<seq<byte>>, i: nat, k: nat, j: nat)
    requires i <= k <= j <= |spans|
    ensures Flatten(spans[i..j]) == Flatten(spans[i..k]) + Flatten(spans[k..j])
  {
    assert spans[i..j] == spans[i..k] + spans[k..j];
    FlattenAppend(spans[i..k], spans[k..j]);
  }

  lemma FlattenSingle(s: seq<byte>)
    ensures Flatten([s]) == s
  {
    assert [s][1..] == [];
  }

  /** Appending one span to a slice appends its bytes. */
  lemma FlattenExtend(spans: seq<seq<byte>>, i: nat, k: nat)
    requires i <= k < |spans|
    ensures Flatten(spans[i..k + 1]) == Flatten(spans[i..k]) + spans[k]
  {
    FlattenSplit(spans, i, k, k + 1);
    assert spans[k..k + 1] == [spans[k]];
    FlattenSingle(spans[k]);
  }

  function Min(a: int, b: int): int { if a <= b then a else b }
}
