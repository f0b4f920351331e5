/** Small facts about sequences that several models share. */
module Sequences {

  datatype Option<+T> = None | Some(value: T)

  function Min(a: nat, b: nat): nat {
    if a < b then a else b
  }

  /** A random number cut down to a position below `n`. */
  function Below(draw: nat, n: nat): (p: nat)
    requires n > 0
    ensures p < n
  {
    draw % n
  }

  /** No value occurs twice. */
  ghost predicate NoDup<T>(s: seq<T>) {
    forall i, j :: 0 <= i < j < |s| ==> s[i] != s[j]
  }

  lemma {:induction false} SubsetLength<T>(a: seq<T>, b: seq<T>)
    requires NoDup(a) && forall x :: x in a ==> x in b
    ensures |a| <= |b|
  {
    if a != [] {
      var n := |a| - 1;
      assert a[n] in a;
      var k :| 0 <= k < |b| && b[k] == a[n];
      var b' := b[..k] + b[k + 1..];
      forall x | x in a[..n] ensures x in b' {
        assert x in a && x != a[n];
        var i :| 0 <= i < |b| && b[i] == x;
        assert b'[if i < k then i else i - 1] == x;
      }
      SubsetLength(a[..n], b');
    }
  }

  /** Different numbers below `n`. */
  ghost predicate Injective(s: seq<nat>, n: nat) {
    NoDup(s) && forall i :: 0 <= i < |s| ==> s[i] < n
  }

  lemma SwapInjective(s: seq<nat>, t: seq<nat>, a: nat, b: nat, n: nat)
    requires Injective(s, n) && a < |s| && b < |s| && |t| == |s|
    requires t == s[a := s[b]][b := s[a]]
    ensures Injective(t, n)
  {
    forall i, j | 0 <= i < j < |t| ensures t[i] != t[j] {
      var i' := if i == a then b else if i == b then a else i;
      var j' := if j == a then b else if j == b then a else j;
      assert t[i] == s[i'] && t[j] == s[j'] && i' != j';
    }
  }

  /** `n` different numbers below `n` are all of them. */
  lemma InjectiveOnto(s: seq<nat>, n: nat, v: nat)
    requires Injective(s, n) && |s| == n && v < n
    ensures v in s
  {
    if v !in s {
      var others := seq(n - 1, i requires 0 <= i < n - 1 => if i < v then i else i + 1);
      forall x | x in s ensures x in others {
        var i :| 0 <= i < |s| && s[i] == x;
        assert others[if x < v then x else x - 1] == x;
      }
      SubsetLength(s, others);
      assert false;
    }
  }

  lemma Associative<T>(a: seq<T>, b: seq<T>, c: seq<T>)
    ensures a + (b + c) == a + b + c
  {
  }

  /** The concatenation of the parts. */
  function Flat<T>(parts: seq<seq<T>>): seq<T> {
    if parts == [] then [] else parts[0] + Flat(parts[1..])
  }

  lemma {:induction false} FlatSnoc<T>(parts: seq<seq<T>>, last: seq<T>)
    ensures Flat(parts + [last]) == Flat(parts) + last
  {
    if parts != [] {
      assert (parts + [last])[1..] == parts[1..] + [last];
      FlatSnoc(parts[1..], last);
    } else {
      assert parts + [last] == [last];
    }
  }
}
