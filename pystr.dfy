/**
 * Python's slicing, `find`, `join` and `split` on `str` and `bytes`, over
 * sequences of any element type. `split` keeps empty pieces and cuts at the
 * leftmost non-overlapping occurrences of the separator, scanning left to right.
 */
module PyStr {
  import opened Wrappers

  /** `sep` occurs in `s` starting at index `i`. */
  ghost predicate OccursAt<T>(s: seq<T>, sep: seq<T>, i: int) {
    0 <= i && i + |sep| <= |s| && s[i..i + |sep|] == sep
  }

  /** `sep in s` is false. */
  ghost predicate SepFree<T>(s: seq<T>, sep: seq<T>) {
    forall j :: !OccursAt(s, sep, j)
  }

  /**
   * In `a + sep`, the first occurrence of `sep` is the one right after `a`:
   * splitting `a + sep + rest` cuts exactly at the end of `a`.
   */
  ghost predicate NoEarlyMatch<T>(a: seq<T>, sep: seq<T>) {
    forall j :: 0 <= j < |a| ==> !OccursAt(a + sep, sep, j)
  }

  /** No proper prefix of `sep` is also a suffix of it (true of ": ", "; " and every single element). */
  ghost predicate Unbordered<T>(sep: seq<T>) {
    forall k :: 0 < k < |sep| ==> sep[..k] != sep[|sep| - k..]
  }

  /** `s.find(sep, from)`, with `None` for -1. */
  function FindFrom<T(==)>(s: seq<T>, sep: seq<T>, from: nat): (r: Option<nat>)
    decreases |s| - from
    ensures r.Some? ==> from <= r.value && OccursAt(s, sep, r.value)
    ensures r.Some? ==> forall j :: from <= j < r.value ==> !OccursAt(s, sep, j)
    ensures r.None? ==> forall j :: from <= j ==> !OccursAt(s, sep, j)
  {
    if from + |sep| > |s| then None
    else if s[from..from + |sep|] == sep then Some(from)
    else FindFrom(s, sep, from + 1)
  }

  /** `s.find(sep)`. */
  function Find<T(==)>(s: seq<T>, sep: seq<T>): (r: Option<nat>)
    ensures r.Some? ==> OccursAt(s, sep, r.value) && forall j :: 0 <= j < r.value ==> !OccursAt(s, sep, j)
    ensures r.None? <==> SepFree(s, sep)
  {
    FindFrom(s, sep, 0)
  }

  /** `sep.join(ps)`. */
  function Join<T>(ps: seq<seq<T>>, sep: seq<T>): seq<T>
  {
    if |ps| == 0 then []
    else if |ps| == 1 then ps[0]
    else ps[0] + sep + Join(ps[1..], sep)
  }

  /** `s[n:]` for `n >= 0`. */
  function Drop<T>(s: seq<T>, n: nat): (r: seq<T>)
    ensures |r| == if n <= |s| then |s| - n else 0
    ensures forall i :: 0 <= i < |r| ==> r[i] == s[n + i]
  {
    if n <= |s| then s[n..] else []
  }

  /** `s[:-n]` for `n >= 1` (for `n == 0` Python's `s[:-0]` is empty, a case the client never uses). */
  function DropLast<T>(s: seq<T>, n: nat): (r: seq<T>)
    requires n >= 1
    ensures |r| == if n <= |s| then |s| - n else 0
    ensures r <= s
  {
    if n <= |s| then s[..|s| - n] else []
  }

  /**
   * `s.split(sep, maxsplit)`; a negative `maxsplit` means no limit, so
   * `s.split(sep)` is `SplitN(s, sep, -1)`. Python refuses an empty separator.
   */
  function SplitN<T(==)>(s: seq<T>, sep: seq<T>, maxsplit: int): (r: seq<seq<T>>)
    requires |sep| > 0
    decreases |s|
    ensures 1 <= |r|
    ensures maxsplit >= 0 ==> |r| <= maxsplit + 1
    ensures Join(r, sep) == s
    ensures forall i :: 0 <= i < |r| - 1 ==> NoEarlyMatch(r[i], sep)
    ensures maxsplit < 0 || |r| <= maxsplit ==> SepFree(r[|r| - 1], sep)
  {
    if maxsplit == 0 then [s]
    else match Find(s, sep)
      case None => [s]
      case Some(i) =>
        CutAtFirst(s, sep, i);
        var m := if maxsplit < 0 then maxsplit else maxsplit - 1;
        var rest := SplitN(s[i + |sep|..], sep, m);
        ConsPiece(s[..i], sep, rest);
        assert maxsplit < 0 || |rest| + 1 <= maxsplit ==> SepFree(rest[|rest| - 1], sep);
        [s[..i]] + rest
  }

  /** Putting a piece with no early match in front of the pieces of the rest. */
  lemma ConsPiece<T>(a: seq<T>, sep: seq<T>, rest: seq<seq<T>>)
    requires |rest| >= 1 && NoEarlyMatch(a, sep)
    requires forall i :: 0 <= i < |rest| - 1 ==> NoEarlyMatch(rest[i], sep)
    ensures Join([a] + rest, sep) == a + sep + Join(rest, sep)
    ensures forall i :: 0 <= i < |rest| ==> NoEarlyMatch(([a] + rest)[i], sep)
    ensures ([a] + rest)[|rest|] == rest[|rest| - 1]
  {
    var r := [a] + rest;
    assert r[1..] == rest;
    assert forall k :: 1 <= k < |r| ==> r[k] == rest[k - 1];
  }

  /** The leftmost match cuts `s` into a piece with no earlier match, the separator, and the rest. */
  lemma CutAtFirst<T>(s: seq<T>, sep: seq<T>, i: nat)
    requires OccursAt(s, sep, i) && forall j :: 0 <= j < i ==> !OccursAt(s, sep, j)
    ensures s == s[..i] + sep + s[i + |sep|..]
    ensures NoEarlyMatch(s[..i], sep)
  {
    assert s[..i + |sep|] == s[..i] + sep;
    forall j | 0 <= j < i ensures !OccursAt(s[..i] + sep, sep, j) {
      assert !OccursAt(s, sep, j);
      assert s[..i + |sep|][j..j + |sep|] == s[j..j + |sep|];
    }
  }

  /** `s.split(sep)`. */
  function Split<T(==)>(s: seq<T>, sep: seq<T>): (r: seq<seq<T>>)
    requires |sep| > 0
    ensures 1 <= |r|
    ensures Join(r, sep) == s
    ensures forall i :: 0 <= i < |r| - 1 ==> NoEarlyMatch(r[i], sep)
    ensures forall i :: 0 <= i < |r| ==> SepFree(r[i], sep)
  {
    var r := SplitN(s, sep, -1);
    assert forall i :: 0 <= i < |r| - 1 ==> SepFree(r[i], sep) by {
      forall i | 0 <= i < |r| - 1 ensures SepFree(r[i], sep) {
        NoEarlyMatchSepFree(r[i], sep);
      }
    }
    r
  }

  /** A piece that is cut off by the leftmost match has no match of its own. */
  lemma NoEarlyMatchSepFree<T>(a: seq<T>, sep: seq<T>)
    requires |sep| > 0 && NoEarlyMatch(a, sep)
    ensures SepFree(a, sep)
  {
    forall j ensures !OccursAt(a, sep, j) {
      if 0 <= j && j + |sep| <= |a| {
        assert !OccursAt(a + sep, sep, j);
        assert (a + sep)[j..j + |sep|] == a[j..j + |sep|];
      }
    }
  }

  /** Where `sep` has no border, any piece without a match is cut exactly at its end. */
  lemma UnborderedNoEarlyMatch<T>(a: seq<T>, sep: seq<T>)
    requires Unbordered(sep) && SepFree(a, sep)
    ensures NoEarlyMatch(a, sep)
  {
    forall j | 0 <= j < |a| ensures !OccursAt(a + sep, sep, j) {
      if j + |sep| <= |a| {
        assert !OccursAt(a, sep, j);
        assert (a + sep)[j..j + |sep|] == a[j..j + |sep|];
      } else {
        var k := |a| - j;
        assert sep[..|sep| - k] != sep[|sep| - (|sep| - k)..];
        assert (a + sep)[j..j + |sep|][k..] == sep[..|sep| - k];
      }
    }
  }

  /** A two-element separator whose elements differ has no border. */
  lemma UnborderedPair<T>(a: T, b: T)
    requires a != b
    ensures Unbordered([a, b])
  {
    assert [a, b][..1] == [a] && [a, b][1..] == [b];
  }

  /** With a single-element separator, "not an element" is all a piece needs. */
  lemma SingleSep<T>(a: seq<T>, c: T)
    requires c !in a
    ensures NoEarlyMatch(a, [c]) && SepFree(a, [c])
  {
    forall j | 0 <= j < |a| ensures !OccursAt(a + [c], [c], j) {
      assert (a + [c])[j] == a[j];
    }
    forall j ensures !OccursAt(a, [c], j) {
      if 0 <= j < |a| {
        assert a[j..j + 1] == [a[j]];
      }
    }
  }

  lemma FindAfter<T>(a: seq<T>, sep: seq<T>, rest: seq<T>)
    requires NoEarlyMatch(a, sep)
    ensures Find(a + sep + rest, sep) == Some(|a|)
  {
    var s := a + sep + rest;
    assert s[..|a| + |sep|] == a + sep;
    assert OccursAt(s, sep, |a|) by {
      assert s[|a|..|a| + |sep|] == sep;
    }
    forall j | 0 <= j < |a| ensures !OccursAt(s, sep, j) {
      assert !OccursAt(a + sep, sep, j);
      assert s[..|a| + |sep|][j..j + |sep|] == s[j..j + |sep|];
    }
  }

  /** Splitting `a + sep + rest` cuts after `a` when `a` has no earlier match. */
  lemma SplitNCons<T>(a: seq<T>, sep: seq<T>, rest: seq<T>, n: int)
    requires |sep| > 0 && n != 0 && NoEarlyMatch(a, sep)
    ensures SplitN(a + sep + rest, sep, n) == [a] + SplitN(rest, sep, if n < 0 then n else n - 1)
  {
    var s := a + sep + rest;
    FindAfter(a, sep, rest);
    assert s[..|a|] == a;
    assert s[|a| + |sep|..] == rest;
  }

  lemma SplitNSepFree<T>(s: seq<T>, sep: seq<T>, n: int)
    requires |sep| > 0 && SepFree(s, sep)
    ensures SplitN(s, sep, n) == [s]
  {
  }

  /** `split` undoes `join` for pieces that do not interfere with the separator. */
  lemma SplitJoin<T>(ps: seq<seq<T>>, sep: seq<T>)
    requires |sep| > 0 && |ps| >= 1
    requires forall i :: 0 <= i < |ps| - 1 ==> NoEarlyMatch(ps[i], sep)
    requires SepFree(ps[|ps| - 1], sep)
    ensures Split(Join(ps, sep), sep) == ps
  {
    SplitNJoin(ps, sep);
  }

  /** `SplitJoin`, by induction on the pieces, for the unlimited `SplitN` that `Split` is. */
  lemma {:induction false} SplitNJoin<T>(ps: seq<seq<T>>, sep: seq<T>)
    requires |sep| > 0 && |ps| >= 1
    requires forall i :: 0 <= i < |ps| - 1 ==> NoEarlyMatch(ps[i], sep)
    requires SepFree(ps[|ps| - 1], sep)
    ensures SplitN(Join(ps, sep), sep, -1) == ps
  {
    if |ps| == 1 {
      SplitNSepFree(ps[0], sep, -1);
    } else {
      var tail := ps[1..];
      var rest := Join(tail, sep);
      assert SplitN(rest, sep, -1) == tail by {
        assert forall i :: 0 <= i < |tail| - 1 ==> tail[i] == ps[i + 1];
        assert tail[|tail| - 1] == ps[|ps| - 1];
        SplitNJoin(tail, sep);
      }
      assert SplitN(ps[0] + sep + rest, sep, -1) == [ps[0]] + SplitN(rest, sep, -1) by {
        assert NoEarlyMatch(ps[0], sep);
        SplitNCons(ps[0], sep, rest, -1);
      }
      assert Join(ps, sep) == ps[0] + sep + rest;
      assert ps == [ps[0]] + tail;
    }
  }

  /** One piece joins to itself; two or more always include the separator. */
  lemma JoinShape<T>(ps: seq<seq<T>>, sep: seq<T>)
    ensures |ps| == 1 ==> Join(ps, sep) == ps[0]
    ensures |ps| > 1 ==> |Join(ps, sep)| >= |sep|
  {
  }

  /** Every element of `join`'s result comes from a piece or from the separator. */
  lemma {:induction false} JoinExcludes<T>(ps: seq<seq<T>>, sep: seq<T>, x: T)
    requires x !in sep
    requires forall i :: 0 <= i < |ps| ==> x !in ps[i]
    ensures x !in Join(ps, sep)
  {
    if |ps| > 1 {
      JoinExcludes(ps[1..], sep, x);
    }
  }

  /** With a one-element separator, `split` makes one more piece than there are separators, up to the limit. */
  lemma {:induction false} SplitNCount<T>(s: seq<T>, c: T, n: int)
    ensures |SplitN(s, [c], n)| == 1 + if n < 0 || multiset(s)[c] <= n then multiset(s)[c] else n
    decreases |s|
  {
    if n == 0 {
    } else {
      match Find(s, [c])
      case None =>
        assert c !in multiset(s) by {
          forall j | 0 <= j < |s| ensures s[j] != c {
            assert !OccursAt(s, [c], j);
            assert s[j..j + 1] == [s[j]];
          }
        }
      case Some(i) =>
        var rest := s[i + 1..];
        var m := if n < 0 then n else n - 1;
        SplitNStep(s, [c], n);
        assert |SplitN(s, [c], n)| == 1 + |SplitN(rest, [c], m)|;
        SplitNCount(rest, c, m);
        SingleMatch(s, c, i);
        MultisetAround(s, i);
        assert multiset(s)[c] == multiset(rest)[c] + 1;
    }
  }

  /** One step of `split`: the piece before the leftmost match, then the split of what follows it. */
  lemma SplitNStep<T>(s: seq<T>, sep: seq<T>, n: int)
    requires |sep| > 0 && n != 0 && Find(s, sep).Some?
    ensures var i := Find(s, sep).value;
      && i + |sep| <= |s|
      && SplitN(s, sep, n) == [s[..i]] + SplitN(s[i + |sep|..], sep, if n < 0 then n else n - 1)
  {
  }

  lemma MultisetAround<T>(s: seq<T>, i: int)
    requires 0 <= i < |s|
    ensures multiset(s) == multiset(s[..i]) + multiset{s[i]} + multiset(s[i + 1..])
  {
    assert s == s[..i] + [s[i]] + s[i + 1..];
  }

  /** The first match of a one-element separator is its first occurrence as an element. */
  lemma SingleMatch<T>(s: seq<T>, c: T, i: nat)
    requires OccursAt(s, [c], i) && forall j :: 0 <= j < i ==> !OccursAt(s, [c], j)
    ensures s[i] == c && multiset(s[..i])[c] == 0
  {
    assert s[i..i + 1] == [s[i]];
    forall j | 0 <= j < i ensures s[..i][j] != c {
      assert !OccursAt(s, [c], j);
      assert s[j..j + 1] == [s[j]];
    }
  }
}
