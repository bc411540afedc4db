/** The few Python string and POSIX path operations the update script relies
    on, written out over `seq<char>` with the edge cases Python gives them. */
module PyStr {

  /** `s.startswith(p)` */
  predicate StartsWith(s: string, p: string) {
    |p| <= |s| && s[..|p|] == p
  }

  /** `p` occurs in `s` starting at index `i`. */
  predicate OccursAt(s: string, p: string, i: nat) {
    i + |p| <= |s| && s[i..i + |p|] == p
  }

  /** `p in s`: some slice of `s` equals `p`. */
  predicate Contains(s: string, p: string) {
    exists i: nat | i <= |s| :: OccursAt(s, p, i)
  }

  /** `s.replace(p, "")`: every occurrence of `p` is deleted, found left to
      right without overlap, not just a leading one. */
  function RemoveAll(s: string, p: string): (r: string)
    requires p != []
    ensures |r| <= |s|
    decreases |s|
  {
    if |s| < |p| then s
    else if s[..|p|] == p then RemoveAll(s[|p|..], p)
    else [s[0]] + RemoveAll(s[1..], p)
  }

  /** A string with no occurrence of `p` comes back from `RemoveAll` unchanged. */
  lemma {:induction false} RemoveAllAbsent(s: string, p: string)
    requires p != [] && !Contains(s, p)
    ensures RemoveAll(s, p) == s
    decreases |s|
  {
    if |s| >= |p| {
      assert s[0..|p|] == s[..|p|];
      assert !OccursAt(s, p, 0);
      assert !Contains(s[1..], p) by {
        forall i: nat | OccursAt(s[1..], p, i)
          ensures false
        {
          assert s[1..][i..i + |p|] == s[i + 1..i + 1 + |p|];
          assert OccursAt(s, p, i + 1);
        }
      }
      RemoveAllAbsent(s[1..], p);
      assert s == [s[0]] + s[1..];
    }
  }

  /** An occurrence in the tail is an occurrence one place further on. */
  lemma OccursAtTail(s: string, p: string, i: nat)
    requires s != []
    ensures OccursAt(s[1..], p, i) <==> OccursAt(s, p, i + 1)
  {
    if i + |p| <= |s[1..]| {
      assert s[1..][i..i + |p|] == s[i + 1..i + 1 + |p|];
    }
  }

  /** Without an occurrence at the start, the first character is kept. */
  lemma RemoveAllKeep(s: string, p: string)
    requires p != [] && s != [] && !OccursAt(s, p, 0)
    ensures RemoveAll(s, p) == [s[0]] + RemoveAll(s[1..], p)
  {
    if |p| <= |s| {
      assert s[0..|p|] == s[..|p|];
    }
  }

  /** An occurrence at the start is deleted and the search resumes after it. */
  lemma RemoveAllDrop(p: string, y: string)
    requires p != []
    ensures RemoveAll(p + y, p) == RemoveAll(y, p)
  {
    assert (p + y)[..|p|] == p && (p + y)[|p|..] == y;
  }

  /** No occurrence before `|x|` in `x + p + y` means none before `|x| - 1`
      once the first character of `x` is dropped. */
  lemma NoOccurrenceTail(x: string, p: string, y: string)
    requires x != []
    requires forall i: nat :: i < |x| ==> !OccursAt(x + p + y, p, i)
    ensures forall i: nat :: i < |x[1..]| ==> !OccursAt(x[1..] + p + y, p, i)
  {
    var s := x + p + y;
    assert s[1..] == x[1..] + p + y;
    forall i: nat | i < |x[1..]| ensures !OccursAt(x[1..] + p + y, p, i) {
      OccursAtTail(s, p, i);
    }
  }

  /** The first occurrence of `p` is deleted and the search resumes after
      it: with `RemoveAllAbsent` this pins down `replace(p, "")` on every string. */
  lemma {:induction false} RemoveAllFirst(x: string, p: string, y: string)
    requires p != []
    requires forall i: nat :: i < |x| ==> !OccursAt(x + p + y, p, i)
    ensures RemoveAll(x + p + y, p) == x + RemoveAll(y, p)
    decreases |x|
  {
    if x == [] {
      assert x + p + y == p + y;
      RemoveAllDrop(p, y);
    } else {
      var s := x + p + y;
      assert !OccursAt(s, p, 0);
      RemoveAllKeep(s, p);
      assert s[1..] == x[1..] + p + y;
      NoOccurrenceTail(x, p, y);
      RemoveAllFirst(x[1..], p, y);
      assert s[0] == x[0] && [x[0]] + x[1..] == x;
    }
  }

  /** Removing `p` from `p + t` where `t` holds no further `p` leaves exactly `t`:
      on a well-formed URL the replace acts as a prefix strip. */
  lemma RemoveLeading(p: string, t: string)
    requires p != [] && !Contains(t, p)
    ensures RemoveAll(p + t, p) == t
  {
    assert (p + t)[..|p|] == p;
    assert (p + t)[|p|..] == t;
    RemoveAllAbsent(t, p);
  }

  /** `s.split(sep)` with an explicit separator: the pieces between separators,
      empty ones included, so there is always at least one piece. */
  function Split(s: string, sep: char): (parts: seq<string>)
    ensures |parts| >= 1
    ensures forall i :: 0 <= i < |parts| ==> sep !in parts[i]
    ensures |parts| == 1 <==> sep !in s
    decreases |s|
  {
    if s == [] then [[]]
    else
      var rest := Split(s[1..], sep);
      assert sep in s <==> s[0] == sep || sep in s[1..] by {
        assert s == [s[0]] + s[1..];
      }
      if s[0] == sep then [[]] + rest
      else [[s[0]] + rest[0]] + rest[1..]
  }

  /** `sep.join(parts)` */
  function Join(parts: seq<string>, sep: char): string
    requires |parts| >= 1
    decreases |parts|
  {
    if |parts| == 1 then parts[0]
    else parts[0] + [sep] + Join(parts[1..], sep)
  }

  /** Splitting loses nothing: joining the pieces back gives the string. */
  lemma {:induction false} SplitJoin(s: string, sep: char)
    ensures Join(Split(s, sep), sep) == s
    decreases |s|
  {
    if s != [] {
      var rest := Split(s[1..], sep);
      SplitJoin(s[1..], sep);
      if s[0] == sep {
        assert ([[]] + rest)[1..] == rest;
      } else if |rest| > 1 {
        var parts := [[s[0]] + rest[0]] + rest[1..];
        assert parts[1..] == rest[1..];
      }
      assert s == [s[0]] + s[1..];
    }
  }

  /** `os.path.basename(p)`: the part after the last `/`. */
  function Basename(p: string): (b: string)
    ensures '/' !in b
    ensures |b| <= |p| && b == p[|p| - |b|..]
    ensures |b| < |p| ==> p[|p| - |b| - 1] == '/'
    decreases |p|
  {
    if p == [] || p[|p| - 1] == '/' then []
    else Basename(p[..|p| - 1]) + [p[|p| - 1]]
  }

  /** `os.path.join(a, b)` on POSIX: an absolute `b` replaces `a`; otherwise a
      `/` is put between them unless `a` is empty or already ends in one. */
  function PathJoin(a: string, b: string): (r: string)
    ensures |b| <= |r| && r[|r| - |b|..] == b
    ensures StartsWith(b, "/") ==> r == b
    ensures !StartsWith(b, "/") ==> StartsWith(r, a)
    ensures !StartsWith(b, "/") ==> |r| == if a == [] || a[|a| - 1] == '/' then |a| + |b| else |a| + 1 + |b|
    ensures !StartsWith(b, "/") && a != [] ==> a[|a| - 1] == '/' || (|a| < |r| && r[|a|] == '/')
  {
    if StartsWith(b, "/") then b
    else if a == [] || a[|a| - 1] == '/' then a + b
    else a + "/" + b
  }

  /** `s[:n]`: the first `n` characters, or all of a shorter string. */
  function Take(s: string, n: nat): (r: string)
    ensures |r| == if |s| < n then |s| else n
    ensures r == s[..|r|]
  {
    if |s| <= n then s else s[..n]
  }
}
