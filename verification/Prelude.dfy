/** Result types shared by every module, and the strict order on strings used for paths and fingerprints. */
module Prelude {

  datatype Option<+T> = None | Some(value: T)

  datatype Result<+T> = Ok(value: T) | Err(reason: string)

  newtype byte = x: int | 0 <= x < 256

  /** The outcome of an operation that returns only an error. */
  datatype Outcome = Done | Failed(reason: string)
}

/** The lexicographic order of Go's `<` on strings and its sorted enumerations. */
module Order {

  predicate Less(a: string, b: string)
  {
    b != [] && (a == [] || a[0] < b[0] || (a[0] == b[0] && Less(a[1..], b[1..])))
  }

  /** Strictly increasing, hence free of duplicates. */
  ghost predicate Sorted(s: seq<string>) {
    forall i, j | 0 <= i < j < |s| :: Less(s[i], s[j])
  }

  lemma {:induction false} LessIrreflexive(a: string)
    ensures !Less(a, a)
  {
    if a != [] {
      LessIrreflexive(a[1..]);
    }
  }

  lemma {:induction false} LessTransitive(a: string, b: string, c: string)
    requires Less(a, b) && Less(b, c)
    ensures Less(a, c)
  {
    if a != [] && a[0] == b[0] == c[0] {
      LessTransitive(a[1..], b[1..], c[1..]);
    }
  }

  lemma {:induction false} LessTotal(a: string, b: string)
    ensures a == b || Less(a, b) || Less(b, a)
    ensures !(Less(a, b) && Less(b, a))
  {
    if a != [] && b != [] && a[0] == b[0] {
      LessTotal(a[1..], b[1..]);
      assert a == [a[0]] + a[1..] && b == [b[0]] + b[1..];
    }
  }

  /** The first position that differs decides; a proper prefix comes first. */
  lemma {:induction false} LessLexicographic(a: string, b: string)
    ensures Less(a, b) <==>
      exists k | 0 <= k <= |a| && k < |b| :: a[..k] == b[..k] && (k == |a| || a[k] < b[k])
  {
    if a != [] && b != [] && a[0] == b[0] {
      LessLexicographic(a[1..], b[1..]);
      if Less(a, b) {
        var k :| 0 <= k <= |a[1..]| && k < |b[1..]| && a[1..][..k] == b[1..][..k]
          && (k == |a[1..]| || a[1..][k] < b[1..][k]);
        assert a[..k + 1] == [a[0]] + a[1..][..k] && b[..k + 1] == [b[0]] + b[1..][..k];
      }
      if k :| 0 <= k <= |a| && k < |b| && a[..k] == b[..k] && (k == |a| || a[k] < b[k]) {
        assert k > 0;
        assert a[1..][..k - 1] == a[..k][1..] && b[1..][..k - 1] == b[..k][1..];
      }
    } else if Less(a, b) {
      assert a[..0] == b[..0];
    } else if a != [] && b != [] {
      if k :| 0 <= k <= |a| && k < |b| && a[..k] == b[..k] && (k == |a| || a[k] < b[k]) {
        PrefixHead(a, b, k);
      }
    }
  }

  lemma PrefixHead(a: string, b: string, k: nat)
    requires a != [] && b != [] && k <= |a| && k <= |b| && a[..k] == b[..k]
    ensures k > 0 ==> a[0] == b[0]
  {
    assert k > 0 ==> a[..k][0] == a[0] && b[..k][0] == b[0];
  }

  /** A finite set has one sorted enumeration, so two sorts of it agree. */
  lemma {:induction false} SortedUnique(s: seq<string>, t: seq<string>)
    requires Sorted(s) && Sorted(t)
    requires forall x :: x in s <==> x in t
    ensures s == t
  {
    assert |s| > 0 ==> s[0] in t;
    assert |t| > 0 ==> t[0] in s;
    if s != [] {
      LessTotal(s[0], t[0]);
      forall x ensures x in s[1..] <==> x in t[1..] {
        LessIrreflexive(s[0]);
        assert x in s[1..] <==> x in s && x != s[0];
        assert x in t[1..] <==> x in t && x != t[0];
      }
      SortedUnique(s[1..], t[1..]);
      assert s == [s[0]] + s[1..] && t == [t[0]] + t[1..];
    }
  }

  function Insert(s: seq<string>, x: string): (r: seq<string>)
    requires Sorted(s) && x !in s
    ensures Sorted(r)
    ensures forall y :: y in r <==> y in s || y == x
  {
    if s == [] || Less(x, s[0]) then
      assert s == [] || forall j | 0 < j < |s| :: Less(x, s[j]) by {
        forall j | 0 < j < |s| ensures Less(x, s[j]) { LessTransitive(x, s[0], s[j]); }
      }
      [x] + s
    else
      assert Less(s[0], x) by { LessTotal(s[0], x); }
      assert s == [s[0]] + s[1..];
      var rest := Insert(s[1..], x);
      assert forall j | 0 <= j < |rest| :: Less(s[0], rest[j]) by {
        forall j | 0 <= j < |rest| ensures Less(s[0], rest[j]) { assert rest[j] in rest; }
      }
      [s[0]] + rest
  }

  /** The sorted enumeration of a finite set. */
  ghost function Enumerate(paths: set<string>): (r: seq<string>)
    ensures Sorted(r)
    ensures forall x :: x in r <==> x in paths
  {
    if paths == {} then [] else
      var x :| x in paths;
      Insert(Enumerate(paths - {x}), x)
  }

  lemma {:induction false} SortedSize(s: seq<string>)
    requires Sorted(s)
    ensures |set x | x in s| == |s|
  {
    if s != [] {
      SortedSize(s[1..]);
      LessIrreflexive(s[0]);
      assert (set x | x in s) == (set x | x in s[1..]) + {s[0]};
    }
  }

  lemma EnumerateSize(keys: set<string>)
    ensures |Enumerate(keys)| == |keys|
  {
    SortedSize(Enumerate(keys));
    assert (set x | x in Enumerate(keys)) == keys;
  }

  /** Sorts the members of a set, standing in for Go's `sort.Strings` on a map's keys. */
  method Sort(paths: set<string>) returns (ordered: seq<string>)
    ensures ordered == Enumerate(paths)
  {
    ordered := [];
    var rest := paths;
    while rest != {}
      invariant rest <= paths
      invariant Sorted(ordered)
      invariant forall x :: x in ordered <==> x in paths - rest
      decreases rest
    {
      var x :| x in rest;
      ordered := Insert(ordered, x);
      rest := rest - {x};
    }
    SortedUnique(ordered, Enumerate(paths));
  }
}

/** Counting and concatenation over sequences. */
module Sequences {

  lemma CountsTwice<T>(t: seq<T>, i: nat, j: nat)
    requires i < j < |t| && t[i] == t[j]
    ensures multiset(t)[t[i]] >= 2
  {
    assert t == t[..j] + t[j..];
    assert t[..j][i] == t[i] && t[j..][0] == t[j];
    assert t[i] in t[..j] && t[i] in t[j..];
    assert multiset(t) == multiset(t[..j]) + multiset(t[j..]);
  }

  lemma CountsOnce<T>(s: seq<T>, x: nat)
    requires x < |s| && forall i | 0 <= i < |s| && i != x :: s[i] != s[x]
    ensures multiset(s)[s[x]] == 1
  {
    assert s == s[..x] + ([s[x]] + s[x + 1..]);
    assert s[x] !in s[..x] && s[x] !in s[x + 1..];
    assert multiset(s) == multiset(s[..x]) + (multiset{s[x]} + multiset(s[x + 1..]));
  }

  function Concat<T>(parts: seq<seq<T>>): seq<T> {
    if parts == [] then [] else parts[0] + Concat(parts[1..])
  }

  lemma {:induction false} ConcatAppend<T>(s: seq<seq<T>>, t: seq<seq<T>>)
    ensures Concat(s + t) == Concat(s) + Concat(t)
  {
    if s == [] {
      assert s + t == t;
    } else {
      assert (s + t)[1..] == s[1..] + t;
      ConcatAppend(s[1..], t);
    }
  }
}
