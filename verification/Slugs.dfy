/** Default service ids: the five string normalisers of the SDKs, on ASCII names and before the
    random or time-based fallback for an empty result that all but .NET have.
 */
module Slugs {
  import opened Text

  predicate IsAlnum(c: char) { IsUpper(c) || IsLower(c) || IsDigit(c) }

  // ----- the chains of the source -----

  function DropRun(p: char -> bool, s: string): (r: string)
    ensures |r| <= |s| && (s != "" && p(s[0]) ==> |r| < |s|)
  {
    if s != "" && p(s[0]) then DropRun(p, s[1..]) else s
  }

  /** Every maximal run of characters satisfying `p` replaced by one underscore. */
  function ReplaceRuns(p: char -> bool, s: string): string
    decreases |s|
  {
    if s == "" then ""
    else if p(s[0]) then "_" + ReplaceRuns(p, DropRun(p, s))
    else [s[0]] + ReplaceRuns(p, s[1..])
  }

  predicate IsUnderscore(c: char) { c == '_' }

  /** Outside `[a-z0-9_-]`. */
  predicate IsForeign(c: char) { !(IsLower(c) || IsDigit(c) || c == '_' || c == '-') }

  /** What Java's `trim` removes: every character up to the space. */
  predicate IsJavaTrimmed(c: char) { c <= ' ' }

  function TypeScriptSlug(name: string): string {
    var normalized := ReplaceRuns(IsSpace, Map(Lower, Trim(IsSpace, name)));
    Trim(IsUnderscore, ReplaceRuns(IsUnderscore, ReplaceRuns(IsForeign, normalized)))
  }

  function JavaSlug(name: string): string {
    Trim(IsUnderscore, ReplaceRuns(IsUnderscore, ReplaceRuns(IsForeign, Map(Lower, Trim(IsJavaTrimmed, name)))))
  }

  function GoChar(c: char): char {
    if IsLower(c) || IsDigit(c) || c == '_' || c == '-' then c
    else if IsUpper(c) then (c as int + 32) as char
    else '_'
  }

  function GoSlug(name: string): string {
    Trim(IsUnderscore, Map(GoChar, Trim(IsSpace, name)))
  }

  function DotnetChar(c: char): char { if IsAlnum(c) then c else '_' }

  /** A blank name is refused before this chain, and an empty result is used as it is. */
  function DotnetSlug(name: string): string {
    Trim(IsUnderscore, Map(DotnetChar, Map(Lower, Trim(IsSpace, name))))
  }

  // ----- the reference: words joined by single underscores -----

  /** A character that stays in the id: a letter, a digit or a hyphen. */
  predicate IsKept(c: char) { IsAlnum(c) || c == '-' }

  /** The kept characters of `s` in lower case, with one underscore for every stretch of other
      characters between two of them. `open` says that something stands before `s`, `gap` that a
      stretch of other characters does. */
  function Joined(s: string, open: bool, gap: bool): string {
    if s == "" then ""
    else if IsKept(s[0]) then (if open && gap then "_" else "") + [Lower(s[0])] + Joined(s[1..], true, false)
    else Joined(s[1..], open, true)
  }

  function Slug(name: string): string { Joined(name, false, false) }

  // ----- the chains compute the reference -----

  /** `p` holds of no character of `s` that stays in the id. */
  predicate NeverKept(p: char -> bool, s: string) {
    forall i :: 0 <= i < |s| && p(s[i]) ==> !IsKept(s[i])
  }

  lemma {:induction false} JoinedSkips(p: char -> bool, s: string, open: bool)
    requires NeverKept(p, s)
    ensures Joined(DropRun(p, s), open, true) == Joined(s, open, true)
  {
    if s != "" && p(s[0]) {
      JoinedSkips(p, s[1..], open);
    }
  }

  lemma {:induction false} DropRunSuffix(p: char -> bool, s: string)
    ensures exists k :: 0 <= k <= |s| && DropRun(p, s) == s[k..]
    ensures DropRun(p, s) != "" ==> !p(DropRun(p, s)[0])
  {
    if s != "" && p(s[0]) {
      DropRunSuffix(p, s[1..]);
      var k :| 0 <= k <= |s[1..]| && DropRun(p, s[1..]) == s[1..][k..];
      assert s[1..][k..] == s[k + 1..];
    } else {
      assert s[0..] == s;
    }
  }

  /** Replacing runs of dropped characters by an underscore does not change the words. */
  lemma {:induction false} JoinedReplaced(p: char -> bool, s: string, open: bool, gap: bool)
    requires NeverKept(p, s)
    ensures Joined(ReplaceRuns(p, s), open, gap) == Joined(s, open, gap)
    decreases |s|
  {
    if s == "" {
    } else if p(s[0]) {
      var rest := ReplaceRuns(p, DropRun(p, s));
      assert ("_" + rest)[1..] == rest;
      DropRunSuffix(p, s);
      JoinedReplaced(p, DropRun(p, s), open, true);
      JoinedSkips(p, s[1..], open);
    } else {
      var rest := ReplaceRuns(p, s[1..]);
      assert ([s[0]] + rest)[1..] == rest;
      JoinedReplaced(p, s[1..], if IsKept(s[0]) then true else open, !IsKept(s[0]));
    }
  }

  predicate SameWords(f: char -> char) {
    forall c: char :: (IsKept(f(c)) <==> IsKept(c)) && (IsKept(c) ==> Lower(f(c)) == Lower(c))
  }

  lemma {:induction false} JoinedMapped(f: char -> char, s: string, open: bool, gap: bool)
    requires SameWords(f)
    ensures Joined(Map(f, s), open, gap) == Joined(s, open, gap)
  {
    if s != "" {
      assert Map(f, s)[1..] == Map(f, s[1..]);
      JoinedMapped(f, s[1..], if IsKept(s[0]) then true else open, !IsKept(s[0]));
    }
  }

  lemma {:induction false} JoinedEnd(s: string, open: bool, gap: bool, b: string)
    requires forall i :: 0 <= i < |b| ==> !IsKept(b[i])
    ensures Joined(s + b, open, gap) == Joined(s, open, gap)
    decreases |s| + |b|
  {
    if s != "" {
      assert (s + b)[1..] == s[1..] + b;
      JoinedEnd(s[1..], if IsKept(s[0]) then true else open, !IsKept(s[0]), b);
    } else if b != "" {
      assert s + b == b;
      assert "" + b[1..] == b[1..];
      JoinedEnd("", open, true, b[1..]);
    }
  }

  /** Before the first word a gap makes no difference. */
  lemma GapUnused(s: string)
    ensures Joined(s, false, true) == Joined(s, false, false)
  {
  }

  lemma {:induction false} JoinedStart(a: string, s: string, gap: bool)
    requires forall i :: 0 <= i < |a| ==> !IsKept(a[i])
    ensures Joined(a + s, false, gap) == Joined(s, false, gap)
    decreases |a|
  {
    if a == "" {
      assert a + s == s;
    } else {
      assert (a + s)[1..] == a[1..] + s;
      JoinedStart(a[1..], s, true);
      GapUnused(s);
    }
  }

  lemma SlugTrimmed(p: char -> bool, s: string)
    requires NeverKept(p, s)
    ensures Slug(Trim(p, s)) == Slug(s)
  {
    var a, b := TrimSplits(p, s);
    var t := Trim(p, s);
    assert forall i :: 0 <= i < |a| ==> a[i] == s[i];
    assert forall i :: 0 <= i < |b| ==> b[i] == s[|a + t| + i];
    JoinedEnd(a + t, false, false, b);
    JoinedStart(a, t, false);
  }

  // ----- normal forms -----

  predicate NoForeign(s: string) {
    forall i :: 0 <= i < |s| ==> !IsForeign(s[i])
  }

  predicate HasDouble(s: string) {
    exists i :: 0 <= i < |s| - 1 && s[i] == '_' && s[i + 1] == '_'
  }

  /** Lower-case letters, digits, hyphens and inner single underscores only. */
  predicate IsSlug(s: string) {
    && NoForeign(s)
    && (s != "" ==> s[0] != '_' && s[|s| - 1] != '_')
    && !HasDouble(s)
  }

  lemma Tail(s: string)
    requires s != "" && !HasDouble(s)
    requires NoForeign(s)
    requires s[|s| - 1] != '_'
    ensures !HasDouble(s[1..])
    ensures NoForeign(s[1..])
    ensures s[1..] != "" ==> s[1..][|s| - 2] != '_'
    ensures s[0] == '_' ==> |s| > 1 && s[1] != '_'
  {
    var t := s[1..];
    forall i | 0 <= i < |t| - 1
      ensures !(t[i] == '_' && t[i + 1] == '_')
    {
      assert t[i] == s[i + 1] && t[i + 1] == s[i + 2];
    }
    if s[0] == '_' && |s| > 1 && s[1] == '_' {
      assert HasDouble(s);
    }
  }

  /** The reference leaves exactly the normal forms alone. */
  lemma {:induction false} JoinedNormal(s: string, open: bool)
    requires NoForeign(s)
    requires !HasDouble(s)
    requires s != "" ==> s[|s| - 1] != '_'
    requires open || s == "" || s[0] != '_'
    ensures Joined(s, open, false) == s
    decreases |s|
  {
    if s != "" {
      Tail(s);
      if s[0] == '_' {
        var t := s[1..];
        assert t[0] != '_';
        Tail(t);
        JoinedNormal(t[1..], true);
        assert t == [t[0]] + t[1..];
        assert s == ['_'] + t;
      } else {
        JoinedNormal(s[1..], true);
        assert s == [s[0]] + s[1..];
      }
    }
  }

  lemma NoDoubleCons(c: char, rest: string)
    requires !HasDouble(rest)
    requires c != '_' || rest == "" || rest[0] != '_'
    ensures !HasDouble([c] + rest)
  {
    var r := [c] + rest;
    forall i | 0 <= i < |r| - 1
      ensures !(r[i] == '_' && r[i + 1] == '_')
    {
      if i > 0 {
        assert r[i] == rest[i - 1] && r[i + 1] == rest[i];
      }
    }
  }

  /** What the reference emits has lower-case letters, digits, hyphens and single underscores. */
  lemma {:induction false} JoinedClean(s: string, open: bool, gap: bool)
    ensures NoForeign(Joined(s, open, gap)) && !HasDouble(Joined(s, open, gap))
  {
    if s != "" {
      if IsKept(s[0]) {
        var rest := Joined(s[1..], true, false);
        JoinedClean(s[1..], true, false);
        NoDoubleCons(Lower(s[0]), rest);
        NoDoubleCons('_', [Lower(s[0])] + rest);
        assert Joined(s, open, gap) == (if open && gap then "_" else "") + ([Lower(s[0])] + rest);
      } else {
        JoinedClean(s[1..], open, true);
      }
    }
  }

  /** It never ends in an underscore, and begins with one only behind something else. */
  lemma {:induction false} JoinedEnds(s: string, open: bool, gap: bool)
    ensures var r := Joined(s, open, gap);
      r != "" ==> r[|r| - 1] != '_' && (r[0] == '_' ==> open)
  {
    if s != "" {
      if IsKept(s[0]) {
        var rest := Joined(s[1..], true, false);
        JoinedEnds(s[1..], true, false);
        assert Joined(s, open, gap) == (if open && gap then "_" else "") + ([Lower(s[0])] + rest);
      } else {
        JoinedEnds(s[1..], open, true);
      }
    }
  }

  lemma PartIsClean(c: string, from: nat, r: string)
    requires from + |r| <= |c| && r == c[from..from + |r|]
    ensures NoForeign(c) ==> NoForeign(r)
    ensures !HasDouble(c) ==> !HasDouble(r)
  {
    assert forall i :: 0 <= i < |r| ==> r[i] == c[from + i];
    if i :| 0 <= i < |r| - 1 && r[i] == '_' && r[i + 1] == '_' {
      assert c[from + i] == '_' && c[from + i + 1] == '_';
    }
  }

  lemma TrimmedIsSlug(c: string)
    requires NoForeign(c) && !HasDouble(c)
    ensures IsSlug(Trim(IsUnderscore, c))
  {
    var a, b := TrimSplits(IsUnderscore, c);
    PartIsClean(c, |a|, Trim(IsUnderscore, c));
    FirstOfTrim(IsUnderscore, c);
  }

  lemma {:induction false} CollapsedClean(t: string)
    requires NoForeign(t)
    ensures var c := ReplaceRuns(IsUnderscore, t);
      && NoForeign(c)
      && !HasDouble(c)
      && (c != "" && c[0] == '_' ==> t[0] == '_')
    decreases |t|
  {
    if t == "" {
    } else if t[0] == '_' {
      var d := DropRun(IsUnderscore, t);
      DropRunSuffix(IsUnderscore, t);
      CollapsedClean(d);
      var rest := ReplaceRuns(IsUnderscore, d);
      assert rest != "" ==> rest[0] != '_';
      NoDoubleCons('_', rest);
    } else {
      CollapsedClean(t[1..]);
      NoDoubleCons(t[0], ReplaceRuns(IsUnderscore, t[1..]));
    }
  }

  /** Trimming and collapsing underscores turns any text without foreign characters into its
      slug. */
  lemma CollapsedIsSlug(t: string)
    requires NoForeign(t)
    ensures Trim(IsUnderscore, ReplaceRuns(IsUnderscore, t)) == Slug(t)
  {
    var c := ReplaceRuns(IsUnderscore, t);
    CollapsedClean(t);
    TrimmedIsSlug(c);
    JoinedNormal(Trim(IsUnderscore, c), false);
    SlugTrimmed(IsUnderscore, c);
    JoinedReplaced(IsUnderscore, t, false, false);
  }

  lemma {:induction false} ForeignGone(s: string)
    ensures NoForeign(ReplaceRuns(IsForeign, s))
    decreases |s|
  {
    if s == "" {
    } else if IsForeign(s[0]) {
      ForeignGone(DropRun(IsForeign, s));
    } else {
      ForeignGone(s[1..]);
    }
  }

  /** No upper-case letter is left after lowering, so a foreign character is never a letter. */
  lemma ChainIsSlug(s: string)
    requires forall i :: 0 <= i < |s| ==> !IsUpper(s[i])
    ensures Trim(IsUnderscore, ReplaceRuns(IsUnderscore, ReplaceRuns(IsForeign, s))) == Slug(s)
  {
    ForeignGone(s);
    CollapsedIsSlug(ReplaceRuns(IsForeign, s));
    JoinedReplaced(IsForeign, s, false, false);
  }

  lemma {:induction false} RunsAddNoUpper(p: char -> bool, s: string)
    requires forall i :: 0 <= i < |s| ==> !IsUpper(s[i])
    ensures forall i :: 0 <= i < |ReplaceRuns(p, s)| ==> !IsUpper(ReplaceRuns(p, s)[i])
    decreases |s|
  {
    if s == "" {
    } else if p(s[0]) {
      DropRunSuffix(p, s);
      RunsAddNoUpper(p, DropRun(p, s));
    } else {
      RunsAddNoUpper(p, s[1..]);
    }
  }

  lemma LoweredTrim(p: char -> bool, name: string)
    requires NeverKept(p, name)
    ensures Slug(Map(Lower, Trim(p, name))) == Slug(name)
    ensures forall i :: 0 <= i < |Map(Lower, Trim(p, name))| ==> !IsUpper(Map(Lower, Trim(p, name))[i])
  {
    SlugTrimmed(p, name);
    JoinedMapped(Lower, Trim(p, name), false, false);
  }

  /** The regular expression chain of the TypeScript SDK joins the words of the name. */
  lemma TypeScriptIsSlug(name: string)
    ensures TypeScriptSlug(name) == Slug(name)
  {
    var lowered := Map(Lower, Trim(IsSpace, name));
    LoweredTrim(IsSpace, name);
    RunsAddNoUpper(IsSpace, lowered);
    ChainIsSlug(ReplaceRuns(IsSpace, lowered));
    JoinedReplaced(IsSpace, lowered, false, false);
  }

  /** So does Java's, although it trims more and has one replacement less. */
  lemma JavaIsSlug(name: string)
    ensures JavaSlug(name) == Slug(name)
  {
    LoweredTrim(IsJavaTrimmed, name);
    ChainIsSlug(Map(Lower, Trim(IsJavaTrimmed, name)));
  }

  lemma {:induction false} AllUnderscores(t: string)
    requires DropRun(IsUnderscore, t) == ""
    ensures forall i :: 0 <= i < |t| ==> t[i] == '_'
  {
    if t != "" {
      AllUnderscores(t[1..]);
    }
  }

  lemma CollapsedNonempty(t: string)
    ensures ReplaceRuns(IsUnderscore, t) == "" <==> t == ""
  {
  }

  lemma {:induction false} CollapsedEnd(t: string)
    requires t != "" ==> t[|t| - 1] != '_'
    ensures var c := ReplaceRuns(IsUnderscore, t); c != "" ==> c[|c| - 1] != '_'
    decreases |t|
  {
    if t == "" {
    } else if t[0] == '_' {
      DropRunSuffix(IsUnderscore, t);
      var d := DropRun(IsUnderscore, t);
      if d == "" {
        AllUnderscores(t);
      }
      CollapsedEnd(d);
      CollapsedNonempty(d);
    } else {
      CollapsedEnd(t[1..]);
    }
  }

  lemma GoMapped(s: string)
    ensures NoForeign(Map(GoChar, s))
    ensures Slug(Map(GoChar, s)) == Slug(s)
  {
    JoinedMapped(GoChar, s, false, false);
  }

  lemma CollapseOfTrimmedIsSlug(t: string)
    requires NoForeign(t)
    requires t != "" ==> t[0] != '_' && t[|t| - 1] != '_'
    ensures IsSlug(ReplaceRuns(IsUnderscore, t))
  {
    CollapsedClean(t);
    CollapsedEnd(t);
  }

  lemma CollapseOfTrimmed(t: string)
    requires NoForeign(t)
    requires t != "" ==> t[0] != '_' && t[|t| - 1] != '_'
    ensures ReplaceRuns(IsUnderscore, t) == Slug(t)
  {
    CollapseOfTrimmedIsSlug(t);
    JoinedNormal(ReplaceRuns(IsUnderscore, t), false);
    JoinedReplaced(IsUnderscore, t, false, false);
  }

  /** Collapsing after trimming, the order of Go, gives a normal form as well. */
  lemma TrimmedCollapse(g: string)
    requires NoForeign(g)
    ensures ReplaceRuns(IsUnderscore, Trim(IsUnderscore, g)) == Slug(Trim(IsUnderscore, g))
  {
    var t := Trim(IsUnderscore, g);
    var a, b := TrimSplits(IsUnderscore, g);
    PartIsClean(g, |a|, t);
    FirstOfTrim(IsUnderscore, g);
    CollapseOfTrimmed(t);
  }

  /** Collapsing the underscores of the Go id gives the id of the other two SDKs. */
  lemma GoCollapsedIsSlug(name: string)
    ensures ReplaceRuns(IsUnderscore, GoSlug(name)) == Slug(name)
  {
    var g := Map(GoChar, Trim(IsSpace, name));
    GoMapped(Trim(IsSpace, name));
    TrimmedCollapse(g);
    SlugTrimmed(IsUnderscore, g);
    SlugTrimmed(IsSpace, name);
  }

  lemma DoubleTail(t: string)
    requires t != "" && !(|t| > 1 && t[0] == '_' && t[1] == '_')
    ensures HasDouble(t) <==> HasDouble(t[1..])
  {
    if i :| 0 <= i < |t| - 1 && t[i] == '_' && t[i + 1] == '_' {
      assert t[1..][i - 1] == '_' && t[1..][i] == '_';
    }
    if i :| 0 <= i < |t[1..]| - 1 && t[1..][i] == '_' && t[1..][i + 1] == '_' {
      assert t[i + 1] == '_' && t[i + 2] == '_';
    }
  }

  lemma {:induction false} CollapseShortens(t: string)
    ensures |ReplaceRuns(IsUnderscore, t)| <= |t|
    decreases |t|
  {
    if t == "" {
    } else if t[0] == '_' {
      CollapseShortens(DropRun(IsUnderscore, t));
    } else {
      CollapseShortens(t[1..]);
    }
  }

  lemma {:induction false} CollapseFixed(t: string)
    ensures ReplaceRuns(IsUnderscore, t) == t <==> !HasDouble(t)
    decreases |t|
  {
    if t == "" {
    } else if t[0] == '_' {
      var d := DropRun(IsUnderscore, t);
      DropRunSuffix(IsUnderscore, t);
      if |t| > 1 && t[1] == '_' {
        assert HasDouble(t);
        CollapseShortens(d);
        assert |d| <= |t| - 2;
      } else {
        assert d == t[1..];
        CollapseFixed(d);
        assert t == "_" + d;
        DoubleTail(t);
      }
    } else {
      CollapseFixed(t[1..]);
      assert t == [t[0]] + t[1..];
      DoubleTail(t);
    }
  }

  lemma {:induction false} SlugEmptyExactly(s: string, open: bool, gap: bool)
    ensures Joined(s, open, gap) == "" <==> forall i :: 0 <= i < |s| ==> !IsKept(s[i])
  {
    if s != "" && !IsKept(s[0]) {
      SlugEmptyExactly(s[1..], open, true);
      assert forall i :: 0 < i < |s| ==> s[i] == s[1..][i - 1];
    }
  }

  // ----- one underscore for each character between the words -----

  /** The kept characters in lower case, with an underscore for every single character of a stretch
      between two of them. `run` is the length of the stretch before `s`. */
  function Spread(s: string, open: bool, run: nat): string {
    if s == "" then ""
    else if IsKept(s[0]) then (if open then Repeat('_', run) else "") + [Lower(s[0])] + Spread(s[1..], true, 0)
    else Spread(s[1..], open, run + 1)
  }

  lemma {:induction false} SpreadMapped(f: char -> char, s: string, open: bool, run: nat)
    requires SameWords(f)
    ensures Spread(Map(f, s), open, run) == Spread(s, open, run)
  {
    if s != "" {
      assert Map(f, s)[1..] == Map(f, s[1..]);
      SpreadMapped(f, s[1..], if IsKept(s[0]) then true else open, if IsKept(s[0]) then 0 else run + 1);
    }
  }

  lemma {:induction false} SpreadEnd(s: string, open: bool, run: nat, b: string)
    requires forall i :: 0 <= i < |b| ==> !IsKept(b[i])
    ensures Spread(s + b, open, run) == Spread(s, open, run)
    decreases |s| + |b|
  {
    if s != "" {
      assert (s + b)[1..] == s[1..] + b;
      SpreadEnd(s[1..], if IsKept(s[0]) then true else open, if IsKept(s[0]) then 0 else run + 1, b);
    } else if b != "" {
      assert s + b == b;
      assert "" + b[1..] == b[1..];
      SpreadEnd("", open, run + 1, b[1..]);
    }
  }

  /** Before the first word the length of a stretch makes no difference. */
  lemma {:induction false} RunUnused(s: string, run: nat, run': nat)
    ensures Spread(s, false, run) == Spread(s, false, run')
  {
    if s != "" {
      RunUnused(s[1..], run + 1, run' + 1);
    }
  }

  lemma {:induction false} SpreadStart(a: string, s: string, run: nat)
    requires forall i :: 0 <= i < |a| ==> !IsKept(a[i])
    ensures Spread(a + s, false, run) == Spread(s, false, run)
    decreases |a|
  {
    if a == "" {
      assert a + s == s;
    } else {
      assert (a + s)[1..] == a[1..] + s;
      SpreadStart(a[1..], s, run + 1);
      RunUnused(s, run, run + 1);
    }
  }

  lemma SpreadTrimmed(p: char -> bool, s: string)
    requires NeverKept(p, s)
    ensures Spread(Trim(p, s), false, 0) == Spread(s, false, 0)
  {
    var a, b := TrimSplits(p, s);
    var t := Trim(p, s);
    assert forall i :: 0 <= i < |a| ==> a[i] == s[i];
    assert forall i :: 0 <= i < |b| ==> b[i] == s[|a + t| + i];
    SpreadEnd(a + t, false, 0, b);
    SpreadStart(a, t, 0);
  }

  lemma {:induction false} SpreadNormal(s: string, open: bool, run: nat)
    requires NoForeign(s) && s != "" && s[|s| - 1] != '_'
    requires !open ==> run == 0 && s[0] != '_'
    ensures Spread(s, open, run) == Repeat('_', run) + s
  {
    if s[0] == '_' {
      SpreadNormal(s[1..], open, run + 1);
      assert Repeat('_', run + 1) + s[1..] == Repeat('_', run) + s;
    } else if |s| == 1 {
      assert s == [s[0]];
    } else {
      SpreadNormal(s[1..], true, 0);
      assert s == [s[0]] + s[1..];
    }
  }

  lemma GoTrimmedSpread(name: string)
    ensures Spread(Map(GoChar, Trim(IsSpace, name)), false, 0) == Spread(name, false, 0)
  {
    SpreadMapped(GoChar, Trim(IsSpace, name), false, 0);
    SpreadTrimmed(IsSpace, name);
  }

  lemma TrimmedIsNormal(g: string)
    requires NoForeign(g)
    ensures Trim(IsUnderscore, g) == Spread(Trim(IsUnderscore, g), false, 0)
  {
    var t := Trim(IsUnderscore, g);
    var a, b := TrimSplits(IsUnderscore, g);
    PartIsClean(g, |a|, t);
    FirstOfTrim(IsUnderscore, g);
    if t != "" {
      SpreadNormal(t, false, 0);
      assert Repeat('_', 0) + t == t;
    }
  }

  /** Go's chain puts one underscore for each character of a stretch. */
  lemma GoIsSpread(name: string)
    ensures GoSlug(name) == Spread(name, false, 0)
  {
    var g := Map(GoChar, Trim(IsSpace, name));
    GoMapped(Trim(IsSpace, name));
    TrimmedIsNormal(g);
    SpreadTrimmed(IsUnderscore, g);
    GoTrimmedSpread(name);
  }

  /** Between two kept characters stands at most one other. */
  predicate SingleGaps(s: string, open: bool, run: nat) {
    if s == "" then true
    else if IsKept(s[0]) then (open ==> run <= 1) && SingleGaps(s[1..], true, 0)
    else SingleGaps(s[1..], open, run + 1)
  }

  /** Behind underscores and a first character that is none, the rests decide. */
  lemma SameHead(p: string, q: string, c: char, x: string, y: string)
    requires AllOf(IsUnderscore, p) && AllOf(IsUnderscore, q) && c != '_'
    ensures p + [c] + x == q + [c] + y <==> p == q && x == y
  {
    var l, r := p + [c] + x, q + [c] + y;
    assert l[|p|] == c && r[|q|] == c;
    assert l[|p| + 1..] == x && r[|q| + 1..] == y;
    assert l[..|p|] == p && r[..|q|] == q;
    if |p| < |q| {
      assert r[|p|] == '_';
    } else if |q| < |p| {
      assert l[|q|] == '_';
    }
  }

  lemma {:induction false} SpreadIsJoinedExactly(s: string, open: bool, run: nat)
    ensures Spread(s, open, run) == Joined(s, open, run > 0) <==> SingleGaps(s, open, run)
  {
    if s != "" {
      if IsKept(s[0]) {
        SpreadIsJoinedExactly(s[1..], true, 0);
        SameHead(if open then Repeat('_', run) else "", if open && run > 0 then "_" else "", Lower(s[0]),
                 Spread(s[1..], true, 0), Joined(s[1..], true, false));
      } else {
        SpreadIsJoinedExactly(s[1..], open, run + 1);
      }
    }
  }

  /** TypeScript and Java agree on any name, and Go after collapsing its underscores. Go on its own
      agrees exactly for the names in which at most one character stands between two letters,
      digits or hyphens, that is, when its id has no two adjacent underscores. All three fall back
      on the same names, those without a letter, digit or hyphen. */
  lemma ThreeSlugsRelate(name: string)
    ensures TypeScriptSlug(name) == JavaSlug(name) == ReplaceRuns(IsUnderscore, GoSlug(name))
    ensures GoSlug(name) == TypeScriptSlug(name) <==> SingleGaps(name, false, 0)
    ensures GoSlug(name) == TypeScriptSlug(name) <==> !HasDouble(GoSlug(name))
    ensures TypeScriptSlug(name) == "" <==> forall i :: 0 <= i < |name| ==> !IsKept(name[i])
    ensures GoSlug(name) == "" <==> TypeScriptSlug(name) == ""
  {
    TypeScriptIsSlug(name);
    JavaIsSlug(name);
    GoCollapsedIsSlug(name);
    CollapseFixed(GoSlug(name));
    CollapsedNonempty(GoSlug(name));
    SlugEmptyExactly(name, false, false);
    GoIsSpread(name);
    SpreadIsJoinedExactly(name, false, 0);
  }

  /** TypeScript ids are the normal forms, and those alone are left unchanged. */
  lemma TypeScriptNormalForm(name: string)
    ensures IsSlug(TypeScriptSlug(name))
    ensures TypeScriptSlug(name) == name <==> IsSlug(name)
  {
    TypeScriptIsSlug(name);
    JoinedClean(name, false, false);
    JoinedEnds(name, false, false);
    if IsSlug(name) {
      JoinedNormal(name, false);
    }
  }

  // ----- Python -----

  predicate IsSeparator(c: char) { c == '-' || c == '_' }

  function SpaceToUnderscore(c: char): char { if c == ' ' then '_' else c }

  /** What the character loop appends to what it has; `previous` is its separator flag. */
  function Emitted(s: string, previous: bool): string {
    if s == "" then ""
    else if IsAlnum(s[0]) then [s[0]] + Emitted(s[1..], false)
    else if IsSeparator(s[0]) && !previous then "_" + Emitted(s[1..], true)
    else Emitted(s[1..], previous)
  }

  /** The reference: letters and digits in lower case, one underscore for every stretch between two
      of them that holds a space, hyphen or underscore; other characters vanish. */
  function PythonJoined(s: string, open: bool, gap: bool): string {
    if s == "" then ""
    else if IsAlnum(s[0]) then (if open && gap then "_" else "") + [Lower(s[0])] + PythonJoined(s[1..], true, false)
    else PythonJoined(s[1..], open, gap || IsSeparator(s[0]) || s[0] == ' ')
  }

  function PythonSlug(name: string): string { PythonJoined(name, false, false) }

  /** Python's `replace("__", "_")`: left to right, without overlaps. */
  function ReplaceDouble(s: string): string {
    if |s| < 2 then s
    else if s[0] == '_' && s[1] == '_' then "_" + ReplaceDouble(s[2..])
    else [s[0]] + ReplaceDouble(s[1..])
  }

  lemma {:induction false} ReplaceDoubleShortens(s: string)
    ensures |ReplaceDouble(s)| <= |s|
    ensures HasDouble(s) ==> |ReplaceDouble(s)| < |s|
    decreases |s|
  {
    if |s| >= 2 {
      if s[0] == '_' && s[1] == '_' {
        ReplaceDoubleShortens(s[2..]);
      } else {
        ReplaceDoubleShortens(s[1..]);
        DoubleTail(s);
      }
    }
  }

  /** The loop never puts two underscores side by side, even across characters it drops. */
  lemma {:induction false} EmittedClean(s: string, previous: bool)
    requires forall i :: 0 <= i < |s| ==> !IsUpper(s[i])
    ensures var r := Emitted(s, previous);
      NoForeign(r) && !HasDouble(r) && '-' !in r && (previous && r != "" ==> r[0] != '_')
  {
    if s != "" {
      if IsAlnum(s[0]) {
        EmittedClean(s[1..], false);
        NoDoubleCons(s[0], Emitted(s[1..], false));
      } else if IsSeparator(s[0]) && !previous {
        EmittedClean(s[1..], true);
        NoDoubleCons('_', Emitted(s[1..], true));
      } else {
        EmittedClean(s[1..], previous);
      }
    }
  }

  lemma {:induction false} EmittedJoined(s: string, previous: bool, open: bool, gap: bool)
    requires previous ==> gap
    requires forall i :: 0 <= i < |s| ==> s[i] != ' '
    ensures Joined(Emitted(s, previous), open, gap) == PythonJoined(s, open, gap)
  {
    if s != "" {
      if IsAlnum(s[0]) {
        var rest := Emitted(s[1..], false);
        assert ([s[0]] + rest)[1..] == rest;
        EmittedJoined(s[1..], false, true, false);
      } else if IsSeparator(s[0]) && !previous {
        var rest := Emitted(s[1..], true);
        assert ("_" + rest)[1..] == rest;
        EmittedJoined(s[1..], true, open, true);
      } else {
        EmittedJoined(s[1..], previous, open, gap);
      }
    }
  }

  lemma {:induction false} PythonMapped(s: string, open: bool, gap: bool)
    ensures PythonJoined(Map(SpaceToUnderscore, Map(Lower, s)), open, gap) == PythonJoined(s, open, gap)
  {
    if s != "" {
      var m := Map(SpaceToUnderscore, Map(Lower, s));
      assert m[1..] == Map(SpaceToUnderscore, Map(Lower, s[1..]));
      var sep := IsSeparator(s[0]) || s[0] == ' ';
      PythonMapped(s[1..], IsAlnum(s[0]) || open, !IsAlnum(s[0]) && (gap || sep));
    }
  }

  lemma {:induction false} PythonEnd(s: string, open: bool, gap: bool, b: string)
    requires forall i :: 0 <= i < |b| ==> !IsAlnum(b[i])
    ensures PythonJoined(s + b, open, gap) == PythonJoined(s, open, gap)
    decreases |s| + |b|
  {
    if s != "" {
      assert (s + b)[1..] == s[1..] + b;
      var sep := IsSeparator(s[0]) || s[0] == ' ';
      PythonEnd(s[1..], IsAlnum(s[0]) || open, !IsAlnum(s[0]) && (gap || sep), b);
    } else if b != "" {
      assert s + b == b;
      assert "" + b[1..] == b[1..];
      PythonEnd("", open, gap || IsSeparator(b[0]) || b[0] == ' ', b[1..]);
    }
  }

  lemma {:induction false} PythonGapUnused(s: string)
    ensures PythonJoined(s, false, true) == PythonJoined(s, false, false)
  {
    if s != "" {
      PythonGapUnused(s[1..]);
    }
  }

  lemma {:induction false} PythonStart(a: string, s: string)
    requires forall i :: 0 <= i < |a| ==> !IsAlnum(a[i])
    ensures PythonJoined(a + s, false, false) == PythonJoined(s, false, false)
  {
    if a == "" {
      assert a + s == s;
    } else {
      assert (a + s)[1..] == a[1..] + s;
      PythonGapUnused(a[1..] + s);
      PythonStart(a[1..], s);
    }
  }

  function PythonNormalized(name: string): string {
    Map(SpaceToUnderscore, Map(Lower, Strip(name)))
  }

  lemma PythonTrimmed(name: string)
    ensures PythonSlug(PythonNormalized(name)) == PythonSlug(name)
  {
    var t := Strip(name);
    PythonMapped(t, false, false);
    var a, b := TrimSplits(IsPythonSpace, name);
    PythonEnd(a + t, false, false, b);
    PythonStart(a, t);
  }

  /** What the loop emits, without underscores at the ends, is the reference, and nothing is left
      for the second loop to collapse. */
  lemma EmittedIsPythonSlug(name: string)
    ensures !HasDouble(Trim(IsUnderscore, Emitted(PythonNormalized(name), false)))
    ensures Trim(IsUnderscore, Emitted(PythonNormalized(name), false)) == PythonSlug(name)
  {
    var n := PythonNormalized(name);
    var e := Emitted(n, false);
    EmittedClean(n, false);
    TrimmedIsSlug(e);
    JoinedNormal(Trim(IsUnderscore, e), false);
    SlugTrimmed(IsUnderscore, e);
    EmittedJoined(n, false, false, false);
    PythonTrimmed(name);
  }

  lemma EmittedStep(s: string, i: nat, previous: bool)
    requires i < |s|
    ensures Emitted(s[i..], previous)
         == if IsAlnum(s[i]) then [s[i]] + Emitted(s[i + 1..], false)
            else if IsSeparator(s[i]) && !previous then "_" + Emitted(s[i + 1..], true)
            else Emitted(s[i + 1..], previous)
  {
    assert s[i..][1..] == s[i + 1..];
  }

  /** The Python normaliser as it is written; `hex` stands for the random part of the fallback. */
  method DefaultServiceId(serviceName: string, hex: string) returns (id: string)
    ensures id == if PythonSlug(serviceName) != "" then PythonSlug(serviceName) else "service_" + hex
  {
    var normalized := Map(SpaceToUnderscore, Map(Lower, Strip(serviceName)));
    var chars, previousIsSep := "", false;
    for i := 0 to |normalized|
      invariant Emitted(normalized, false) == chars + Emitted(normalized[i..], previousIsSep)
    {
      var c := normalized[i];
      EmittedStep(normalized, i, previousIsSep);
      if IsAlnum(c) {
        chars, previousIsSep := chars + [c], false;
      } else if IsSeparator(c) && !previousIsSep {
        chars, previousIsSep := chars + "_", true;
      }
    }
    assert normalized[|normalized|..] == "";
    assert chars == Emitted(normalized, false);
    var result := Trim(IsUnderscore, chars);
    ghost var stripped := result;
    while HasDouble(result)
      invariant result == stripped || HasDouble(stripped)
      decreases |result|
    {
      ReplaceDoubleShortens(result);
      result := ReplaceDouble(result);
    }
    EmittedIsPythonSlug(serviceName);
    id := if result != "" then result else "service_" + hex;
  }

  /** A Python id: lower-case letters, digits and inner single underscores. */
  predicate IsPythonSlug(s: string) { IsSlug(s) && '-' !in s }

  lemma {:induction false} PythonNormal(s: string, open: bool, gap: bool)
    requires NoForeign(s) && '-' !in s
    ensures PythonJoined(s, open, gap) == Joined(s, open, gap)
  {
    if s != "" {
      PythonNormal(s[1..], IsAlnum(s[0]) || open, !IsAlnum(s[0]));
    }
  }

  lemma PythonOutput(name: string)
    ensures IsPythonSlug(PythonSlug(name))
  {
    var e := Emitted(PythonNormalized(name), false);
    EmittedIsPythonSlug(name);
    EmittedClean(PythonNormalized(name), false);
    TrimmedIsSlug(e);
    var a, b := TrimSplits(IsUnderscore, e);
    assert forall c :: c in PythonSlug(name) ==> c in e;
  }

  lemma PythonFixed(s: string)
    requires IsPythonSlug(s)
    ensures PythonSlug(s) == s
  {
    PythonNormal(s, false, false);
    JoinedNormal(s, false);
  }

  /** Python ids are the normal forms without hyphens, those alone are left unchanged, and slugging
      twice is slugging once. */
  lemma PythonNormalForm(name: string)
    ensures IsPythonSlug(PythonSlug(name))
    ensures PythonSlug(name) == name <==> IsPythonSlug(name)
    ensures PythonSlug(PythonSlug(name)) == PythonSlug(name)
  {
    PythonOutput(name);
    PythonFixed(PythonSlug(name));
    if IsPythonSlug(name) {
      PythonFixed(name);
    }
  }

  // ----- Python against the other SDKs -----

  /** Every stretch of other characters between two letters or digits holds a space or an
      underscore. `open`, `gap` and `bridged` describe what stands before `s`: a letter or digit, a
      stretch behind it, a space or underscore in that. */
  predicate StretchesBridged(s: string, open: bool, gap: bool, bridged: bool) {
    if s == "" then true
    else if IsAlnum(s[0]) then (open && gap ==> bridged) && StretchesBridged(s[1..], true, false, false)
    else StretchesBridged(s[1..], open, true, bridged || s[0] == ' ' || s[0] == '_')
  }

  lemma {:induction false} SameJoinsExactly(s: string, open: bool, gap: bool, bridged: bool)
    requires '-' !in s
    requires bridged ==> gap
    ensures Joined(s, open, gap) == PythonJoined(s, open, bridged) <==> StretchesBridged(s, open, gap, bridged)
  {
    if s != "" {
      var more := bridged || s[0] == ' ' || s[0] == '_';
      if IsAlnum(s[0]) {
        SameJoinsExactly(s[1..], true, false, false);
        var x, y := Joined(s[1..], true, false), PythonJoined(s[1..], true, false);
        SameHead(if open && gap then "_" else "", if open && bridged then "_" else "", Lower(s[0]), x, y);
      } else {
        SameJoinsExactly(s[1..], open, true, more);
      }
    }
  }

  lemma {:induction false} HyphenStays(s: string, open: bool, gap: bool)
    requires '-' in s
    ensures '-' in Joined(s, open, gap)
  {
    if s[0] != '-' {
      HyphenStays(s[1..], if IsKept(s[0]) then true else open, !IsKept(s[0]));
    }
  }

  /** Python gives the id of TypeScript and Java exactly for the names without a hyphen in which no
      stretch between two letters or digits consists of characters that Python drops. */
  lemma PythonAgreesExactly(name: string)
    ensures PythonSlug(name) == TypeScriptSlug(name)
       <==> '-' !in name && StretchesBridged(name, false, false, false)
  {
    TypeScriptIsSlug(name);
    PythonOutput(name);
    if '-' in name {
      HyphenStays(name, false, false);
    } else {
      SameJoinsExactly(name, false, false, false);
    }
  }

  /** With Go it agrees exactly when, besides, no stretch is longer than one character. */
  lemma PythonAgreesWithGoExactly(name: string)
    ensures PythonSlug(name) == GoSlug(name)
       <==> '-' !in name && StretchesBridged(name, false, false, false) && SingleGaps(name, false, 0)
  {
    PythonAgreesExactly(name);
    ThreeSlugsRelate(name);
    PythonOutput(name);
  }

  // ----- .NET -----

  function HyphenToUnderscore(c: char): char { if c == '-' then '_' else c }

  function Unhyphened(name: string): string { Map(HyphenToUnderscore, name) }

  lemma {:induction false} UnhyphenedTrimStart(s: string)
    ensures TrimStart(IsSpace, Unhyphened(s)) == Unhyphened(TrimStart(IsSpace, s))
  {
    if s != "" {
      assert Unhyphened(s)[1..] == Unhyphened(s[1..]);
      UnhyphenedTrimStart(s[1..]);
    }
  }

  lemma {:induction false} UnhyphenedTrimEnd(s: string)
    ensures TrimEnd(IsSpace, Unhyphened(s)) == Unhyphened(TrimEnd(IsSpace, s))
  {
    if s != "" {
      assert Unhyphened(s)[..|s| - 1] == Unhyphened(s[..|s| - 1]);
      UnhyphenedTrimEnd(s[..|s| - 1]);
    }
  }

  lemma {:induction false} UnhyphenedTrim(name: string)
    ensures Trim(IsSpace, Unhyphened(name)) == Unhyphened(Trim(IsSpace, name))
  {
    UnhyphenedTrimStart(name);
    UnhyphenedTrimEnd(TrimStart(IsSpace, name));
  }

  /** .NET's id is Go's id of the name with underscores for hyphens. */
  lemma DotnetIsGoUnhyphened(name: string)
    ensures DotnetSlug(name) == GoSlug(Unhyphened(name))
  {
    var t := Trim(IsSpace, name);
    UnhyphenedTrim(name);
    assert Map(DotnetChar, Map(Lower, t)) == Map(GoChar, Unhyphened(t));
  }

  /** Python takes a hyphen for an underscore. */
  lemma {:induction false} PythonUnhyphened(s: string, open: bool, gap: bool)
    ensures PythonJoined(Unhyphened(s), open, gap) == PythonJoined(s, open, gap)
  {
    if s != "" {
      assert Unhyphened(s)[1..] == Unhyphened(s[1..]);
      var sep := IsSeparator(s[0]) || s[0] == ' ';
      PythonUnhyphened(s[1..], IsAlnum(s[0]) || open, !IsAlnum(s[0]) && (gap || sep));
    }
  }

  lemma NoHyphenInDotnet(name: string)
    ensures '-' !in DotnetSlug(name)
  {
    var m := Map(DotnetChar, Map(Lower, Trim(IsSpace, name)));
    var a, b := TrimSplits(IsUnderscore, m);
    assert forall c :: c in DotnetSlug(name) ==> c in m;
  }

  lemma {:induction false} HyphenSpread(s: string, open: bool, run: nat)
    requires '-' in s
    ensures '-' in Spread(s, open, run)
  {
    if s[0] != '-' {
      HyphenSpread(s[1..], if IsKept(s[0]) then true else open, if IsKept(s[0]) then 0 else run + 1);
    }
  }

  /** A hyphen stays a hyphen in the ids of TypeScript, Java and Go. */
  lemma HyphenInGo(name: string)
    requires '-' in name
    ensures '-' in GoSlug(name) && '-' in TypeScriptSlug(name)
  {
    GoIsSpread(name);
    HyphenSpread(name, false, 0);
    TypeScriptIsSlug(name);
    HyphenStays(name, false, false);
  }

  /** .NET agrees with Go exactly on the names without a hyphen, with TypeScript and Java if, besides,
      no stretch is longer than one character, and with Python when, hyphens counted as underscores,
      every stretch between two letters or digits is a single space or underscore. */
  lemma DotnetAgreesExactly(name: string)
    ensures DotnetSlug(name) == GoSlug(name) <==> '-' !in name
    ensures DotnetSlug(name) == TypeScriptSlug(name) <==> '-' !in name && SingleGaps(name, false, 0)
    ensures DotnetSlug(name) == PythonSlug(name)
       <==> StretchesBridged(Unhyphened(name), false, false, false) && SingleGaps(Unhyphened(name), false, 0)
  {
    var plain := Unhyphened(name);
    DotnetIsGoUnhyphened(name);
    NoHyphenInDotnet(name);
    PythonUnhyphened(name, false, false);
    PythonAgreesWithGoExactly(plain);
    ThreeSlugsRelate(name);
    if '-' in name {
      HyphenInGo(name);
    } else {
      assert plain == name;
    }
  }

  /** All five SDKs give one id. */
  predicate OneId(name: string) {
    JavaSlug(name) == GoSlug(name) == PythonSlug(name) == DotnetSlug(name) == TypeScriptSlug(name)
  }

  /** They do exactly for the names without a hyphen in which every stretch between two letters or
      digits is a single space or underscore. */
  lemma OneIdExactly(name: string)
    ensures OneId(name) <==> '-' !in name && StretchesBridged(name, false, false, false) && SingleGaps(name, false, 0)
  {
    ThreeSlugsRelate(name);
    PythonAgreesExactly(name);
    DotnetAgreesExactly(name);
  }

  /** The ids of any name in terms of the references. */
  lemma IdsByReference(name: string)
    ensures TypeScriptSlug(name) == Joined(name, false, false)
    ensures GoSlug(name) == Spread(name, false, 0)
    ensures DotnetSlug(name) == Spread(Unhyphened(name), false, 0)
  {
    TypeScriptIsSlug(name);
    GoIsSpread(name);
    DotnetIsGoUnhyphened(name);
    GoIsSpread(Unhyphened(name));
  }

  /** How a letter continues what stands before it. */
  lemma LetterStep(open: bool, gap: bool, run: nat, x: char, rest: string)
    requires IsLower(x)
    ensures Joined([x] + rest, open, gap) == (if open && gap then "_" else "") + [x] + Joined(rest, true, false)
    ensures PythonJoined([x] + rest, open, gap)
         == (if open && gap then "_" else "") + [x] + PythonJoined(rest, true, false)
    ensures Spread([x] + rest, open, run) == (if open then Repeat('_', run) else "") + [x] + Spread(rest, true, 0)
  {
    assert ([x] + rest)[1..] == rest;
  }

  lemma OtherStep(open: bool, gap: bool, run: nat, c: char, rest: string)
    requires !IsKept(c)
    ensures Joined([c] + rest, open, gap) == Joined(rest, open, true)
    ensures PythonJoined([c] + rest, open, gap) == PythonJoined(rest, open, gap || c == '_' || c == ' ')
    ensures Spread([c] + rest, open, run) == Spread(rest, open, run + 1)
  {
    assert ([c] + rest)[1..] == rest;
  }

  lemma OneBetween(name: string, c: char)
    requires name == ['a'] + ([c] + "b") && !IsKept(c)
    ensures Joined(name, false, false) == Spread(name, false, 0) == "a_b"
    ensures PythonSlug(name) == if c == '_' || c == ' ' then "a_b" else "ab"
  {
    LetterStep(false, false, 0, 'a', [c] + "b");
    OtherStep(true, false, 0, c, "b");
    LetterStep(true, true, 1, 'b', "");
    LetterStep(true, false, 1, 'b', "");
    assert "b" == ['b'] + "";
    assert Repeat('_', 1) == "_";
  }

  lemma HyphenBetween(name: string)
    requires name == ['a'] + (['-'] + "b")
    ensures Joined(name, false, false) == Spread(name, false, 0) == name
  {
    LetterStep(false, false, 0, 'a', ['-'] + "b");
    LetterStep(true, false, 0, 'b', "");
    assert "b" == ['b'] + "";
    assert (['-'] + "b")[1..] == "b";
    assert Repeat('_', 0) == "";
  }

  lemma WithoutHyphen(name: string)
    requires '-' !in name
    ensures Unhyphened(name) == name
  {
  }

  lemma TwoSpacesBetween(name: string)
    requires name == ['a'] + ([' '] + ([' '] + "b"))
    ensures Joined(name, false, false) == PythonSlug(name) == "a_b"
    ensures Spread(name, false, 0) == "a__b"
  {
    LetterStep(false, false, 0, 'a', [' '] + ([' '] + "b"));
    OtherStep(true, false, 0, ' ', [' '] + "b");
    OtherStep(true, true, 1, ' ', "b");
    LetterStep(true, true, 2, 'b', "");
    assert "b" == ['b'] + "";
    assert Repeat('_', 2) == "__";
  }

  /** Two spaces set Go and .NET apart from the others. */
  lemma TwoSpacesDiffer(name: string)
    requires name == "a  b"
    ensures TypeScriptSlug(name) == PythonSlug(name) == "a_b" && GoSlug(name) == DotnetSlug(name) == "a__b"
  {
    TwoSpacesBetween(name);
    IdsByReference(name);
    WithoutHyphen(name);
  }

  lemma HyphenUnseen(name: string, plain: string)
    requires plain == Unhyphened(name) && plain == ['a'] + (['_'] + "b")
    ensures PythonSlug(name) == DotnetSlug(name) == "a_b"
  {
    OneBetween(plain, '_');
    PythonUnhyphened(name, false, false);
    DotnetIsGoUnhyphened(name);
    GoIsSpread(plain);
  }

  /** A hyphen sets Python and .NET apart. */
  lemma HyphenDiffers(name: string)
    requires name == "a-b"
    ensures TypeScriptSlug(name) == GoSlug(name) == "a-b" && PythonSlug(name) == DotnetSlug(name) == "a_b"
  {
    HyphenBetween(name);
    TypeScriptIsSlug(name);
    GoIsSpread(name);
    HyphenUnseen(name, Unhyphened(name));
  }

  /** A dot sets Python apart. */
  lemma DotDiffers(name: string)
    requires name == "a.b"
    ensures TypeScriptSlug(name) == GoSlug(name) == DotnetSlug(name) == "a_b" && PythonSlug(name) == "ab"
  {
    OneBetween(name, '.');
    IdsByReference(name);
    WithoutHyphen(name);
  }

  lemma {:induction false} PythonEmptyExactly(s: string, open: bool, gap: bool)
    ensures PythonJoined(s, open, gap) == "" <==> forall i :: 0 <= i < |s| ==> !IsAlnum(s[i])
  {
    if s != "" && !IsAlnum(s[0]) {
      PythonEmptyExactly(s[1..], open, gap || IsSeparator(s[0]) || s[0] == ' ');
      assert forall i :: 0 < i < |s| ==> s[i] == s[1..][i - 1];
    }
  }

  /** .NET alone has no fallback: it refuses blank names, and any other without a letter or digit
      gets the empty id, where Python, and all others but for hyphens, fall back on a generated one. */
  lemma EmptyDotnetId(name: string)
    ensures DotnetSlug(name) == "" <==> forall i :: 0 <= i < |name| ==> !IsAlnum(name[i])
    ensures PythonSlug(name) == "" <==> DotnetSlug(name) == ""
  {
    var plain := Unhyphened(name);
    DotnetIsGoUnhyphened(name);
    ThreeSlugsRelate(plain);
    PythonEmptyExactly(name, false, false);
    assert forall i :: 0 <= i < |name| ==> (IsKept(plain[i]) <==> IsAlnum(name[i]));
  }
}
