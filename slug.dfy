/**
 * The studio slug derived from a studio name when an administrator creates a studio
 * (src/components/admin/studios-client.tsx): trim, lower-case, replace every run of
 * characters outside `[a-z0-9]` by one `-`, then drop a leading and a trailing `-`.
 */
module Slug {
  import opened JsString
  import opened Seqs

  predicate IsSlugChar(c: char) {
    'a' <= c <= 'z' || '0' <= c <= '9'
  }

  predicate NotDash(c: char) {
    c != '-'
  }

  /** An ASCII letter of either case or an ASCII digit. */
  predicate IsAsciiAlphanumeric(c: char) {
    'a' <= c <= 'z' || 'A' <= c <= 'Z' || '0' <= c <= '9'
  }

  /** What the slug chain guarantees about its output. */
  predicate IsSlug(t: string) {
    && (forall i :: 0 <= i < |t| ==> IsSlugChar(t[i]) || t[i] == '-')
    && (forall i :: 0 <= i < |t| - 1 ==> !(t[i] == '-' && t[i + 1] == '-'))
    && (t == [] || (t[0] != '-' && t[|t| - 1] != '-'))
  }

  /** `s.toLowerCase()`, for ASCII letters (every other character is kept). */
  function LowerAscii(s: string): (r: string)
    ensures |r| == |s|
    ensures forall i :: 0 <= i < |s| ==> r[i] == ToLowerAscii(s[i])
  {
    if s == [] then [] else [ToLowerAscii(s[0])] + LowerAscii(s[1..])
  }

  lemma LowerAsciiAppend(a: string, b: string)
    ensures LowerAscii(a + b) == LowerAscii(a) + LowerAscii(b)
  {
    var l, r := LowerAscii(a + b), LowerAscii(a) + LowerAscii(b);
    forall i | 0 <= i < |a| + |b|
      ensures l[i] == r[i]
    {
      if i < |a| {
        assert (a + b)[i] == a[i];
      } else {
        assert (a + b)[i] == b[i - |a|];
      }
    }
  }

  /** The length of the run of non-slug characters at the front of `s`. */
  function SkipCount(s: string): (k: nat)
    ensures k <= |s|
    ensures forall i :: 0 <= i < k ==> !IsSlugChar(s[i])
    ensures k < |s| ==> IsSlugChar(s[k])
  {
    if s != [] && !IsSlugChar(s[0]) then 1 + SkipCount(s[1..]) else 0
  }

  /** The run of non-slug characters at the front of `s`, removed. */
  function SkipRun(s: string): (r: string)
    ensures |r| <= |s| && s[|s| - |r|..] == r
    ensures forall i :: 0 <= i < |s| - |r| ==> !IsSlugChar(s[i])
    ensures r == [] || IsSlugChar(r[0])
  {
    s[SkipCount(s)..]
  }

  /** `s.replace(/[^a-z0-9]+/g, "-")`: each maximal run of characters outside `[a-z0-9]` becomes one `-`. */
  function CollapseRuns(s: string): (r: string)
    ensures forall i :: 0 <= i < |r| ==> IsSlugChar(r[i]) || r[i] == '-'
    ensures forall i :: 0 <= i < |r| - 1 ==> !(r[i] == '-' && r[i + 1] == '-')
    ensures r == [] <==> s == []
    ensures s != [] && IsSlugChar(s[0]) ==> r[0] == s[0]
    decreases |s|
  {
    if s == [] then []
    else if IsSlugChar(s[0]) then [s[0]] + CollapseRuns(s[1..])
    else ['-'] + CollapseRuns(SkipRun(s))
  }

  /** `s.replace(/(^-|-$)/g, "")`: one leading and one trailing `-` are removed. */
  function TrimDashes(s: string): (r: string)
    ensures |r| <= |s|
    ensures (forall i :: 0 <= i < |s| - 1 ==> !(s[i] == '-' && s[i + 1] == '-')) ==>
      r == [] || (r[0] != '-' && r[|r| - 1] != '-')
  {
    DropTrailingDash(DropLeadingDash(s))
  }

  function DropLeadingDash(s: string): string {
    if s != [] && s[0] == '-' then s[1..] else s
  }

  function DropTrailingDash(s: string): string {
    if s != [] && s[|s| - 1] == '-' then s[..|s| - 1] else s
  }

  /** The slug of a studio name. */
  function Slugify(name: string): string {
    TrimDashes(CollapseRuns(LowerAscii(Trim(name))))
  }

  /** The slug contains only `[a-z0-9-]`, has no `--`, and neither starts nor ends with `-`. */
  lemma SlugifyIsSlug(name: string)
    ensures IsSlug(Slugify(name))
  {
    TrimDashesIsSlug(CollapseRuns(LowerAscii(Trim(name))));
  }

  lemma TrimDashesIsSlug(s: string)
    requires forall i :: 0 <= i < |s| ==> IsSlugChar(s[i]) || s[i] == '-'
    requires forall i :: 0 <= i < |s| - 1 ==> !(s[i] == '-' && s[i + 1] == '-')
    ensures IsSlug(TrimDashes(s))
  {
    var lo := if s != [] && s[0] == '-' then 1 else 0;
    var hi := if |s| > lo && s[|s| - 1] == '-' then |s| - 1 else |s|;
    var r := s[lo..hi];
    assert TrimDashes(s) == r;
    assert forall i :: 0 <= i < |r| ==> r[i] == s[lo + i];
  }

  /** Dropping the outer dashes keeps every other character. */
  lemma TrimDashesKeepsNonDashes(s: string)
    ensures Filter(TrimDashes(s), NotDash) == Filter(s, NotDash)
  {
    TrailingDash(DropLeadingDash(s));
    LeadingDash(s);
  }

  lemma LeadingDash(s: string)
    ensures Filter(DropLeadingDash(s), NotDash) == Filter(s, NotDash)
  {
    if s != [] && s[0] == '-' {
      assert s == ['-'] + s[1..];
      DropDash(['-'], s[1..]);
    }
  }

  lemma TrailingDash(a: string)
    ensures Filter(DropTrailingDash(a), NotDash) == Filter(a, NotDash)
  {
    if a != [] && a[|a| - 1] == '-' {
      var pre := a[..|a| - 1];
      assert a == pre + ['-'];
      DropDash(['-'], pre);
    }
  }

  lemma DropDash(d: string, t: string)
    requires d == ['-']
    ensures Filter(d + t, NotDash) == Filter(t, NotDash)
    ensures Filter(t + d, NotDash) == Filter(t, NotDash)
  {
    FilterAppend(d, t, NotDash);
    FilterAppend(t, d, NotDash);
  }

  /** Collapsing runs keeps exactly the slug characters, in order. */
  lemma {:induction false} CollapseKeepsSlugChars(s: string)
    ensures Filter(CollapseRuns(s), NotDash) == Filter(s, IsSlugChar)
    decreases |s|
  {
    if s != [] {
      assert s == [s[0]] + s[1..];
      FilterAppend([s[0]], s[1..], IsSlugChar);
      if IsSlugChar(s[0]) {
        CollapseKeepsSlugChars(s[1..]);
        FilterAppend([s[0]], CollapseRuns(s[1..]), NotDash);
      } else {
        var rest := SkipRun(s);
        CollapseKeepsSlugChars(rest);
        FilterAppend(['-'], CollapseRuns(rest), NotDash);
        SkipRunKeepsSlugChars(s);
      }
    }
  }

  lemma SkipRunKeepsSlugChars(s: string)
    ensures Filter(SkipRun(s), IsSlugChar) == Filter(s, IsSlugChar)
  {
    var k := SkipCount(s);
    var pre, rest := s[..k], s[k..];
    assert SkipRun(s) == rest;
    assert s == pre + rest;
    forall i | 0 <= i < |pre| ensures !IsSlugChar(pre[i]) {
      assert pre[i] == s[i];
    }
    FilterDropsAll(pre, IsSlugChar);
    FilterAppend(pre, rest, IsSlugChar);
  }

  /** White space that `trim` removes contributes nothing to the slug. */
  lemma TrimKeepsSlugChars(name: string)
    ensures Filter(LowerAscii(Trim(name)), IsSlugChar) == Filter(LowerAscii(name), IsSlugChar)
  {
    var pre, post := TrimSplits(name);
    var t := Trim(name);
    LowerAsciiAppend(pre + t, post);
    LowerAsciiAppend(pre, t);
    FilterAppend(LowerAscii(pre) + LowerAscii(t), LowerAscii(post), IsSlugChar);
    FilterAppend(LowerAscii(pre), LowerAscii(t), IsSlugChar);
    SpaceIsNotSlug(pre);
    SpaceIsNotSlug(post);
    FilterDropsAll(LowerAscii(pre), IsSlugChar);
    FilterDropsAll(LowerAscii(post), IsSlugChar);
  }

  /** White space is left alone by lower-casing and lies outside `[a-z0-9]`. */
  lemma SpaceIsNotSlug(s: string)
    requires forall i :: 0 <= i < |s| ==> IsWhiteSpace(s[i])
    ensures forall i :: 0 <= i < |s| ==> !IsSlugChar(LowerAscii(s)[i])
  {
    forall i | 0 <= i < |s| ensures !IsSlugChar(LowerAscii(s)[i]) {
      assert IsWhiteSpace(s[i]);
      assert !IsUpper(s[i]);
    }
  }

  /** The characters of the slug other than `-` are the lower-cased ASCII letters and digits of the name, in order. */
  lemma SlugKeepsAlphanumerics(name: string)
    ensures Filter(Slugify(name), NotDash) == Filter(LowerAscii(name), IsSlugChar)
  {
    var c := CollapseRuns(LowerAscii(Trim(name)));
    TrimDashesKeepsNonDashes(c);
    CollapseKeepsSlugChars(LowerAscii(Trim(name)));
    TrimKeepsSlugChars(name);
  }

  /** A name without ASCII letters or digits gives the empty slug. */
  lemma NoAlphanumericsGivesEmpty(name: string)
    requires forall i :: 0 <= i < |name| ==> !IsAsciiAlphanumeric(name[i])
    ensures Slugify(name) == ""
  {
    var t := Slugify(name);
    var l := LowerAscii(name);
    forall i | 0 <= i < |l| ensures !IsSlugChar(l[i]) {
      assert l[i] == ToLowerAscii(name[i]);
      assert !IsAsciiAlphanumeric(name[i]);
    }
    FilterDropsAll(l, IsSlugChar);
    SlugKeepsAlphanumerics(name);
    SlugifyIsSlug(name);
  }

  /** Slug characters, with each `-` followed by a slug character: what `CollapseRuns` leaves unchanged. */
  predicate Collapsed(t: string) {
    forall i {:trigger t[i]} :: 0 <= i < |t| ==> IsSlugChar(t[i]) || (t[i] == '-' && i + 1 < |t| && IsSlugChar(t[i + 1]))
  }

  lemma {:induction false} CollapseFixed(t: string)
    requires Collapsed(t)
    ensures CollapseRuns(t) == t
    decreases |t|
  {
    if t != [] {
      CollapsedTail(t);
      CollapseFixed(t[1..]);
      assert t == [t[0]] + t[1..];
      if !IsSlugChar(t[0]) {
        assert SkipCount(t[1..]) == 0;
        assert SkipRun(t) == t[1..];
      }
    }
  }

  lemma CollapsedTail(t: string)
    requires t != [] && Collapsed(t)
    ensures Collapsed(t[1..])
  {
    forall i | 0 <= i < |t| - 1
      ensures IsSlugChar(t[1..][i]) || (t[1..][i] == '-' && i + 1 < |t| - 1 && IsSlugChar(t[1..][i + 1]))
    {
      assert t[1..][i] == t[i + 1];
      var j := i + 1;
      assert IsSlugChar(t[j]) || (t[j] == '-' && j + 1 < |t| && IsSlugChar(t[j + 1]));
      if i + 1 < |t| - 1 {
        assert t[1..][i + 1] == t[i + 2];
      }
    }
  }

  /** Slugifying a slug returns it unchanged. */
  lemma SlugifyIdempotent(t: string)
    requires IsSlug(t)
    ensures Slugify(t) == t
  {
    TrimUnchanged(t);
    LowerSlugUnchanged(t);
    SlugIsCollapsed(t);
    CollapseFixed(t);
  }

  lemma LowerSlugUnchanged(t: string)
    requires IsSlug(t)
    ensures LowerAscii(t) == t
  {
  }

  lemma SlugIsCollapsed(t: string)
    requires IsSlug(t)
    ensures Collapsed(t)
  {
    forall i | 0 <= i < |t| && !IsSlugChar(t[i])
      ensures t[i] == '-' && i + 1 < |t| && IsSlugChar(t[i + 1])
    {
      assert t[i] == '-';
      assert i != |t| - 1;
    }
  }

  /** The slug of any name is a fixed point: slugifying twice is slugifying once. */
  lemma SlugifyTwice(name: string)
    ensures Slugify(Slugify(name)) == Slugify(name)
  {
    SlugifyIsSlug(name);
    SlugifyIdempotent(Slugify(name));
  }
}
