/** Constants of the machine and operations on lists that several parts of the kernel share. */
module Common {

  datatype Option<T> = None | Some(value: T)

  const PAGE_SIZE: nat := 4096

  const WORD64: nat := 0x1_0000_0000_0000_0000

  function Inserted<T>(s: seq<T>, i: nat, x: T): seq<T>
    requires i <= |s|
  {
    s[..i] + [x] + s[i..]
  }

  function Removed<T>(s: seq<T>, i: nat): seq<T>
    requires i < |s|
  {
    s[..i] + s[i + 1..]
  }

  /** Where `list_insert_sorted` puts a node: before the first one whose key is not smaller. */
  function FirstAtLeast<T>(s: seq<T>, key: T -> int, b: int): (i: nat)
    ensures i <= |s| && (forall j :: 0 <= j < i ==> key(s[j]) < b) && (i < |s| ==> key(s[i]) >= b)
  {
    if s == [] || key(s[0]) >= b then 0 else 1 + FirstAtLeast(s[1..], key, b)
  }

  /** Each round lets every one of `n` threads move at least once, in any order. */
  ghost predicate Fair(rounds: seq<seq<nat>>, n: nat) {
    forall i {:trigger rounds[i]} :: 0 <= i < |rounds| ==>
      (forall j :: 0 <= j < |rounds[i]| ==> rounds[i][j] < n) && forall t: nat :: t < n ==> t in rounds[i]
  }

  function Flat(rounds: seq<seq<nat>>): seq<nat> {
    if rounds == [] then [] else Flat(rounds[..|rounds| - 1]) + rounds[|rounds| - 1]
  }

  lemma {:induction false} FlatBelow(rounds: seq<seq<nat>>, n: nat)
    requires Fair(rounds, n)
    ensures forall i :: 0 <= i < |Flat(rounds)| ==> Flat(rounds)[i] < n
  {
    if rounds != [] {
      FlatBelow(rounds[..|rounds| - 1], n);
      assert rounds[|rounds| - 1] == rounds[|rounds| - 1];
    }
  }

  lemma {:induction false} FlatConcat(a: seq<seq<nat>>, b: seq<seq<nat>>)
    ensures Flat(a + b) == Flat(a) + Flat(b)
  {
    if b == [] {
      assert a + b == a;
    } else {
      FlatConcat(a, b[..|b| - 1]);
      assert (a + b)[..|a + b| - 1] == a + b[..|b| - 1];
    }
  }
}
