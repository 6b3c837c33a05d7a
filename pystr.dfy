/**
 * The Python string built-ins the bot's handlers rely on: `str.isspace`,
 * `str.strip`, `str.join`, `str.replace(old, "")` and `str.split(sep)[0]`.
 */
module PyStr {

  /** Python's `str.isspace()` for one character: bidirectional class WS, B or S, or category Zs. */
  predicate IsSpace(c: char) {
    var n := c as int;
    (9 <= n <= 13) || (28 <= n <= 32) || n == 0x85 || n == 0xA0 || n == 0x1680
    || (0x2000 <= n <= 0x200A) || n == 0x2028 || n == 0x2029 || n == 0x202F
    || n == 0x205F || n == 0x3000
  }

  predicate AllSpace(s: string) {
    forall i :: 0 <= i < |s| ==> IsSpace(s[i])
  }

  /** No whitespace at either end: what `strip()` always returns. */
  predicate IsStripped(s: string) {
    s == [] || (!IsSpace(s[0]) && !IsSpace(s[|s| - 1]))
  }

  /** Where `s.lstrip()` starts looking from `i`: the first non-whitespace position, or `|s|`. */
  function SkipSpaces(s: string, i: nat): (k: nat)
    requires i <= |s|
    ensures i <= k <= |s|
    ensures k < |s| ==> !IsSpace(s[k])
    decreases |s| - i
  {
    if i < |s| && IsSpace(s[i]) then SkipSpaces(s, i + 1) else i
  }

  /** Everything `SkipSpaces` passes over is whitespace. */
  lemma {:induction false} SkipSpacesSkipsSpace(s: string, i: nat)
    requires i <= |s|
    ensures forall m :: i <= m < SkipSpaces(s, i) ==> IsSpace(s[m])
    decreases |s| - i
  {
    if i < |s| && IsSpace(s[i]) {
      SkipSpacesSkipsSpace(s, i + 1);
    }
  }

  /** Where `s[i..j].rstrip()` ends: just past the last non-whitespace position, or `i`. */
  function BackSpaces(s: string, i: nat, j: nat): (k: nat)
    requires i <= j <= |s|
    ensures i <= k <= j
    ensures k > i ==> !IsSpace(s[k - 1])
    decreases j
  {
    if j > i && IsSpace(s[j - 1]) then BackSpaces(s, i, j - 1) else j
  }

  /** Everything `BackSpaces` passes over is whitespace. */
  lemma {:induction false} BackSpacesSkipsSpace(s: string, i: nat, j: nat)
    requires i <= j <= |s|
    ensures forall m :: BackSpaces(s, i, j) <= m < j ==> IsSpace(s[m])
    decreases j
  {
    if j > i && IsSpace(s[j - 1]) {
      BackSpacesSkipsSpace(s, i, j - 1);
    }
  }

  /** `s[i..j]` has nothing but whitespace on either side of it in `s`. */
  predicate SpaceBordered(s: string, i: nat, j: nat) {
    && i <= j <= |s|
    && (forall m :: 0 <= m < i ==> IsSpace(s[m]))
    && (forall m :: j <= m < |s| ==> IsSpace(s[m]))
  }

  /** `s.strip()`: no whitespace at either end. */
  function Strip(s: string): (r: string)
    ensures IsStripped(r)
  {
    var i := SkipSpaces(s, 0);
    var j := BackSpaces(s, i, |s|);
    s[i..j]
  }

  /** What `strip()` returns is an infix of `s` with only whitespace around it. */
  lemma {:induction false} StripIsBordered(s: string)
    ensures exists i: nat, j: nat :: SpaceBordered(s, i, j) && Strip(s) == s[i..j]
  {
    var i := SkipSpaces(s, 0);
    var j := BackSpaces(s, i, |s|);
    SkipSpacesSkipsSpace(s, 0);
    BackSpacesSkipsSpace(s, i, |s|);
    assert SpaceBordered(s, i, j);
  }

  /** Whitespace on both sides of an infix is determined: every such split gives `Strip(s)`. */
  lemma {:induction false} StripUnique(s: string, i: nat, j: nat)
    requires SpaceBordered(s, i, j)
    requires IsStripped(s[i..j])
    ensures Strip(s) == s[i..j]
  {
    var a := SkipSpaces(s, 0);
    var b := BackSpaces(s, a, |s|);
    SkipSpacesSkipsSpace(s, 0);
    BackSpacesSkipsSpace(s, a, |s|);
    if i < j {
      assert !IsSpace(s[i]) && !IsSpace(s[j - 1]) by {
        assert s[i..j][0] == s[i] && s[i..j][j - i - 1] == s[j - 1];
      }
      assert a == i;
      assert b == j;
    } else {
      assert a == |s|;
    }
  }

  /** Appending whitespace never changes what `strip()` returns. */
  lemma {:induction false} StripIgnoresTrailingSpace(s: string, w: string)
    requires AllSpace(w)
    ensures Strip(s + w) == Strip(s)
  {
    var r := Strip(s);
    StripIsBordered(s);
    var i: nat, j: nat :| SpaceBordered(s, i, j) && r == s[i..j];
    var sw := s + w;
    assert forall m :: |s| <= m < |sw| ==> IsSpace(sw[m]) by {
      forall m | |s| <= m < |sw| ensures IsSpace(sw[m]) {
        assert sw[m] == w[m - |s|];
      }
    }
    assert SpaceBordered(sw, i, j);
    assert sw[i..j] == r;
    StripUnique(sw, i, j);
  }

  /** A string with no whitespace at its ends is its own `strip()`. */
  lemma {:induction false} StripOfStripped(s: string)
    requires IsStripped(s)
    ensures Strip(s) == s
  {
    assert s[0..|s|] == s;
    StripUnique(s, 0, |s|);
  }

  /** `sep.join(parts)` */
  function Join(parts: seq<string>, sep: string): (r: string)
    ensures |parts| == 1 ==> r == parts[0]
    ensures |parts| >= 1 ==> |parts[0]| <= |r| && r[..|parts[0]|] == parts[0]
    ensures |parts| >= 2 ==> |r| >= |parts[0]| + |sep| && r[|parts[0]|..|parts[0]| + |sep|] == sep
  {
    if |parts| == 0 then ""
    else if |parts| == 1 then parts[0]
    else parts[0] + sep + Join(parts[1..], sep)
  }

  /** Joining with a non-empty separator is empty exactly when there is at most one part and it is empty. */
  lemma {:induction false} JoinIsEmpty(parts: seq<string>, sep: string)
    requires sep != []
    ensures Join(parts, sep) == [] <==> (|parts| == 0 || (|parts| == 1 && parts[0] == []))
  {
  }

  predicate OccursAt(s: string, pat: string, i: nat) {
    i + |pat| <= |s| && s[i..i + |pat|] == pat
  }

  predicate Occurs(s: string, pat: string) {
    exists i: nat :: i <= |s| && OccursAt(s, pat, i)
  }

  /**
   * `s.replace(pat, "")` for a non-empty `pat`: one left-to-right pass that
   * drops each non-overlapping occurrence it meets.
   */
  function RemoveAll(s: string, pat: string): (r: string)
    requires pat != []
    ensures |r| <= |s|
    decreases |s|
  {
    if |s| < |pat| then
      s
    else if s[..|pat|] == pat then
      RemoveAll(s[|pat|..], pat)
    else
      [s[0]] + RemoveAll(s[1..], pat)
  }

  /** `replace` shortens the text whenever the pattern occurs in it. */
  lemma {:induction false} RemoveAllShortens(s: string, pat: string)
    requires pat != [] && Occurs(s, pat)
    ensures |RemoveAll(s, pat)| < |s|
    decreases |s|
  {
    if s[..|pat|] != pat {
      assert !OccursAt(s, pat, 0) by {
        assert s[..|pat|] == s[0..0 + |pat|];
      }
      OccursInTail(s, pat);
      RemoveAllShortens(s[1..], pat);
    }
  }

  /** An occurrence that does not start at the head lies in the tail. */
  lemma {:induction false} OccursInTail(s: string, pat: string)
    requires Occurs(s, pat) && !OccursAt(s, pat, 0)
    ensures Occurs(s[1..], pat)
  {
    var i: nat :| i <= |s| && OccursAt(s, pat, i);
    assert i != 0;
    assert s[1..][i - 1..i - 1 + |pat|] == s[i..i + |pat|];
    assert OccursAt(s[1..], pat, i - 1);
  }

  /** An occurrence in the tail is an occurrence one position further on. */
  lemma {:induction false} OccursFromTail(s: string, pat: string)
    requires s != [] && Occurs(s[1..], pat)
    ensures Occurs(s, pat)
  {
    var i: nat :| i <= |s[1..]| && OccursAt(s[1..], pat, i);
    assert s[i + 1..i + 1 + |pat|] == s[1..][i..i + |pat|];
    assert OccursAt(s, pat, i + 1);
  }

  /** `replace` leaves a string alone exactly when the pattern does not occur in it. */
  lemma {:induction false} RemoveAllUnchanged(s: string, pat: string)
    requires pat != []
    ensures RemoveAll(s, pat) == s <==> !Occurs(s, pat)
    decreases |s|
  {
    if !Occurs(s, pat) && |s| >= |pat| {
      assert !OccursAt(s, pat, 0);
      assert s[..|pat|] == s[0..0 + |pat|];
      if Occurs(s[1..], pat) {
        OccursFromTail(s, pat);
      }
      RemoveAllUnchanged(s[1..], pat);
      assert s == [s[0]] + s[1..];
    } else if Occurs(s, pat) {
      RemoveAllShortens(s, pat);
    }
  }

  /** `replace` keeps a character that does not start an occurrence (it differs at `j`) and carries on after it. */
  lemma {:induction false} RemoveAllKeeps(s: string, pat: string, j: nat)
    requires j < |pat| <= |s| && s[j] != pat[j]
    ensures RemoveAll(s, pat) == [s[0]] + RemoveAll(s[1..], pat)
  {
    assert s[..|pat|][j] != pat[j];
  }

  /** `replace` drops an occurrence at the head and carries on after it. */
  lemma {:induction false} RemoveAllDrops(s: string, pat: string)
    requires pat != [] && |s| >= |pat| && s[..|pat|] == pat
    ensures RemoveAll(s, pat) == RemoveAll(s[|pat|..], pat)
  {
  }

  /**
   * `replace` keeps everything before the leftmost occurrence, drops that
   * occurrence and carries on after it; with `RemoveAllUnchanged` this fixes
   * what `replace(pat, "")` returns.
   */
  lemma {:induction false} RemoveAllAtFirst(s: string, pat: string, i: nat)
    requires pat != [] && OccursAt(s, pat, i)
    requires forall j: nat :: j < i ==> !OccursAt(s, pat, j)
    ensures RemoveAll(s, pat) == s[..i] + RemoveAll(s[i + |pat|..], pat)
  {
    var a, b := s[..i], s[i..];
    assert a + b == s;
    RemoveAllKeepsClear(a, b, pat);
    assert b[..|pat|] == pat;
    RemoveAllDrops(b, pat);
    assert b[|pat|..] == s[i + |pat|..];
  }

  /** `replace` keeps a prefix in which no occurrence starts, and carries on after it. */
  lemma {:induction false} RemoveAllKeepsClear(a: string, b: string, pat: string)
    requires pat != []
    requires forall j: nat :: j < |a| ==> !OccursAt(a + b, pat, j)
    ensures RemoveAll(a + b, pat) == a + RemoveAll(b, pat)
    decreases |a|
  {
    if a == [] {
      assert a + b == b;
    } else if |a + b| < |pat| {
      assert RemoveAll(b, pat) == b;
    } else {
      RemoveAllSkips(a + b, pat);
      ClearInTail(a, b, pat);
      RemoveAllKeepsClear(a[1..], b, pat);
      assert [a[0]] + (a[1..] + RemoveAll(b, pat)) == a + RemoveAll(b, pat);
    }
  }

  /** Dropping the head of a clear prefix leaves a clear prefix of the tail. */
  lemma {:induction false} ClearInTail(a: string, b: string, pat: string)
    requires a != []
    requires forall j: nat :: j < |a| ==> !OccursAt(a + b, pat, j)
    ensures (a + b)[1..] == a[1..] + b && (a + b)[0] == a[0]
    ensures forall j: nat :: j < |a| - 1 ==> !OccursAt(a[1..] + b, pat, j)
  {
    assert (a + b)[1..] == a[1..] + b;
    forall j: nat | j < |a| - 1 ensures !OccursAt(a[1..] + b, pat, j) {
      OccursAtTail(a + b, pat, j);
    }
  }

  /** `replace` keeps a head character that does not start an occurrence. */
  lemma {:induction false} RemoveAllSkips(s: string, pat: string)
    requires pat != [] && |pat| <= |s| && !OccursAt(s, pat, 0)
    ensures RemoveAll(s, pat) == [s[0]] + RemoveAll(s[1..], pat)
  {
    assert s[..|pat|] == s[0..0 + |pat|];
  }

  /** An occurrence in the tail at `j` is an occurrence at `j + 1`, and back. */
  lemma {:induction false} OccursAtTail(s: string, pat: string, j: nat)
    requires s != []
    ensures OccursAt(s[1..], pat, j) <==> OccursAt(s, pat, j + 1)
  {
    if j + |pat| <= |s| - 1 {
      assert s[1..][j..j + |pat|] == s[j + 1..j + 1 + |pat|];
    }
  }

  /** A pattern that occurs has a leftmost occurrence. */
  lemma {:induction false} FirstOccurrence(s: string, pat: string, k: nat)
    requires OccursAt(s, pat, k)
    ensures exists i: nat :: i <= k && OccursAt(s, pat, i) && forall j: nat :: j < i ==> !OccursAt(s, pat, j)
    decreases k
  {
    if exists j: nat :: j < k && OccursAt(s, pat, j) {
      var j: nat :| j < k && OccursAt(s, pat, j);
      FirstOccurrence(s, pat, j);
    }
  }

  /** `s.split(sep)[0]`: everything before the first `sep`, or all of `s`. */
  function BeforeFirst(s: string, sep: char): (r: string)
    ensures sep !in r
    ensures |r| <= |s| && r == s[..|r|]
    ensures |r| < |s| ==> s[|r|] == sep
  {
    if s == [] then []
    else if s[0] == sep then []
    else [s[0]] + BeforeFirst(s[1..], sep)
  }

  /** A prefix without the separator passes through `split(sep)[0]` untouched. */
  lemma {:induction false} BeforeFirstAppend(p: string, s: string, sep: char)
    requires sep !in p
    ensures BeforeFirst(p + s, sep) == p + BeforeFirst(s, sep)
  {
    if p != [] {
      assert (p + s)[1..] == p[1..] + s;
      BeforeFirstAppend(p[1..], s, sep);
      assert p == [p[0]] + p[1..];
    } else {
      assert p + s == s;
    }
  }

  /** Splitting at a separator that is absent from the prefix returns that prefix. */
  lemma {:induction false} BeforeFirstOfPrefix(a: string, b: string, sep: char)
    requires sep !in a
    requires b == [] || b[0] == sep
    ensures BeforeFirst(a + b, sep) == a
  {
    if a != [] {
      assert (a + b)[1..] == a[1..] + b;
      BeforeFirstOfPrefix(a[1..], b, sep);
    }
  }
}
