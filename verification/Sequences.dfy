/** Concatenation and slices, shared by the text and byte formats. */
module Sequences {
  import opened Wrappers

  lemma Regroup<T>(a: seq<T>, b: seq<T>, c: seq<T>)
    ensures a + b + c == a + (b + c)
  {
  }

  lemma SliceOfPrefix<T>(s: seq<T>, k: nat, i: nat, j: nat)
    requires i <= j <= k <= |s|
    ensures s[..k][i..j] == s[i..j] && s[..k][..j] == s[..j]
  {
  }

  lemma SliceOfSuffix<T>(s: seq<T>, k: nat, i: nat, j: nat)
    requires i <= j && k + j <= |s|
    ensures s[k..][i..j] == s[k + i..k + j] && s[k..][i..] == s[k + i..] && s[k..][..j] == s[k..k + j]
  {
  }

  lemma SliceOfSlice<T>(s: seq<T>, from: nat, to: nat, i: nat, j: nat)
    requires i <= j && from + j <= to <= |s|
    ensures s[from..to][i..j] == s[from + i..from + j]
  {
    assert s[from..to] == s[..to][from..];
    SliceOfSuffix(s[..to], from, i, j);
    SliceOfPrefix(s, to, from + i, from + j);
  }

  lemma OneMoreOfPrefix<T>(s: seq<T>, k: nat)
    requires k < |s|
    ensures s[..k + 1] == s[..k] + [s[k]]
  {
  }

  lemma OneLessOfSuffix<T>(s: seq<T>, k: nat)
    requires k < |s|
    ensures s[k..] == [s[k]] + s[k + 1..] && s[k..][0] == s[k] && s[k..][1..] == s[k + 1..]
  {
  }

  /** What was produced so far, then what comes after it, unless that fails. */
  function Prepend<T>(before: seq<T>, tail: Option<seq<T>>): Option<seq<T>> {
    if tail.None? then None else Some(before + tail.value)
  }

  lemma PrependNothing<T>(tail: Option<seq<T>>)
    ensures Prepend([], tail) == tail
  {
    if tail.Some? {
      assert [] + tail.value == tail.value;
    }
  }

  lemma PrependTwice<T>(a: seq<T>, b: seq<T>, tail: Option<seq<T>>)
    ensures Prepend(a, Prepend(b, tail)) == Prepend(a + b, tail)
  {
    if tail.Some? {
      Regroup(a, b, tail.value);
    }
  }

  lemma PrependNone<T>(before: seq<T>)
    ensures Prepend(before, None) == None
  {
  }
}
