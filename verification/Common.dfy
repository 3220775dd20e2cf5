/** Types and list facts that several parts of the model share. */
module Common {

  const U32: nat := 0x1_0000_0000
  const U64: nat := 0x1_0000_0000_0000_0000

  newtype Byte = x: int | 0 <= x < 256

  datatype Option<+T> = None | Some(value: T)

  /** A number that fits a machine word is not changed by storing it there. */
  lemma SmallWord(n: nat, size: nat)
    requires n < size
    ensures n % size == n
  {
  }

  // ----- lists without duplicates -----

  predicate NoDuplicates(s: seq<nat>) {
    forall i, j | 0 <= i < j < |s| :: s[i] != s[j]
  }

  /** The list with the first occurrence of an element unlinked. */
  function Without(s: seq<nat>, p: nat): seq<nat> {
    if s == [] then [] else if s[0] == p then s[1..] else [s[0]] + Without(s[1..], p)
  }

  lemma Cons(x: nat, s: seq<nat>)
    ensures NoDuplicates([x] + s) <==> x !in s && NoDuplicates(s)
    ensures forall y :: y in [x] + s <==> y == x || y in s
  {
    var r := [x] + s;
    if NoDuplicates(r) {
      forall i, j | 0 <= i < j < |s| ensures s[i] != s[j] { assert r[i + 1] != r[j + 1]; }
      forall i | 0 <= i < |s| ensures s[i] != x { assert r[0] != r[i + 1]; }
    }
  }

  lemma {:induction false} WithoutFacts(s: seq<nat>, p: nat)
    requires NoDuplicates(s)
    ensures NoDuplicates(Without(s, p)) && |Without(s, p)| == |s| - (if p in s then 1 else 0)
    ensures forall q :: q in Without(s, p) <==> q in s && q != p
  {
    if s != [] {
      WithoutFacts(s[1..], p);
      assert s == [s[0]] + s[1..];
      Cons(s[0], s[1..]);
      Cons(s[0], Without(s[1..], p));
    }
  }

  /** Unlinking the element at a position. */
  lemma {:induction false} WithoutIndex(s: seq<nat>, i: nat)
    requires i < |s| && s[i] !in s[..i]
    ensures Without(s, s[i]) == s[..i] + s[i + 1..]
  {
    if i > 0 {
      assert s[..i][0] == s[0];
      assert forall x | x in s[1..][..i - 1] :: x in s[..i];
      WithoutIndex(s[1..], i - 1);
      assert s[..i] == [s[0]] + s[1..][..i - 1];
    }
  }

  lemma OneMoreKey<K, V>(m: map<K, V>, k: K, v: V)
    requires k !in m
    ensures |m[k := v]| == |m| + 1
  {
    assert m[k := v].Keys == m.Keys + {k};
  }
}
