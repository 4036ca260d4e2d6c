/** Package name normalization (syncer/normalize.go:8-12, server/normalize.go:8-19), the
    "Normalized Names" section of PEP 503, on ASCII names. The index sync names its
    directories with it and the server redirects to its result; both call this one function. */
module Normalize {

  type Name = string

  predicate IsSeparator(c: char) {
    c == '-' || c == '_' || c == '.'
  }

  predicate IsUpper(c: char) {
    'A' <= c <= 'Z'
  }

  function LowerChar(c: char): (l: char)
    ensures !IsUpper(l) && (IsSeparator(l) <==> IsSeparator(c)) && (IsSeparator(c) ==> l == c)
  {
    if IsUpper(c) then c + 32 as char else c
  }

  function ToLower(s: Name): (l: Name)
    ensures |l| == |s| && forall i :: 0 <= i < |s| ==> l[i] == LowerChar(s[i])
  {
    seq(|s|, i requires 0 <= i < |s| => LowerChar(s[i]))
  }

  /** s after the run of separators it starts with. */
  function SkipRun(s: Name): (rest: Name)
    ensures |rest| <= |s|
    ensures rest != [] ==> !IsSeparator(rest[0])
  {
    if s != [] && IsSeparator(s[0]) then SkipRun(s[1..]) else s
  }

  /** Every longest run of separators replaced by one dash. */
  function CollapseRuns(s: Name): Name
    decreases |s|
  {
    if s == [] then []
    else if IsSeparator(s[0]) then "-" + CollapseRuns(SkipRun(s[1..]))
    else [s[0]] + CollapseRuns(s[1..])
  }

  function NormalizeName(name: Name): Name {
    ToLower(CollapseRuns(name))
  }

  predicate IsNormalized(name: Name) {
    NormalizeName(name) == name
  }

  // ---------- What normalized names look like ----------

  /** No underscore or dot, and no two adjacent dashes. */
  ghost predicate SingleDashes(s: Name) {
    && (forall i :: 0 <= i < |s| && IsSeparator(s[i]) ==> s[i] == '-')
    && (forall i, j :: 0 <= i < j < |s| && j == i + 1 ==> s[i] != '-' || s[j] != '-')
  }

  /** .. and no upper case. */
  ghost predicate InNormalForm(name: Name) {
    SingleDashes(name) && forall i :: 0 <= i < |name| ==> !IsUpper(name[i])
  }

  lemma {:induction false} CollapsedHasNoRuns(s: Name)
    ensures var r := CollapseRuns(s);
            && SingleDashes(r)
            && (s != [] && !IsSeparator(s[0]) ==> r != [] && r[0] == s[0])
            && (s == [] ==> r == [])
    decreases |s|
  {
    if s != [] {
      var rest := if IsSeparator(s[0]) then SkipRun(s[1..]) else s[1..];
      CollapsedHasNoRuns(rest);
      var r := CollapseRuns(s);
      assert r[1..] == CollapseRuns(rest);
      assert forall i :: 1 <= i < |r| ==> r[i] == r[1..][i - 1];
    }
  }

  lemma {:induction false} NormalFormIsFixed(name: Name)
    requires InNormalForm(name)
    ensures CollapseRuns(name) == name
    decreases |name|
  {
    if name != [] {
      NormalFormIsFixed(name[1..]);
      if IsSeparator(name[0]) {
        assert name[1..] != [] ==> name[0] != '-' || name[1] != '-';
        assert SkipRun(name[1..]) == name[1..];
      }
      assert name == [name[0]] + name[1..];
    }
  }

  lemma LowerOfLower(s: Name)
    ensures ToLower(ToLower(s)) == ToLower(s)
    ensures (forall i :: 0 <= i < |s| ==> !IsUpper(s[i])) ==> ToLower(s) == s
  {
  }

  /** A result is always in normal form, and a name is its own result exactly when it is. */
  lemma NormalizedIffInNormalForm(name: Name)
    ensures InNormalForm(NormalizeName(name))
    ensures IsNormalized(name) <==> InNormalForm(name)
  {
    CollapsedHasNoRuns(name);
    var r, n := CollapseRuns(name), NormalizeName(name);
    assert forall i :: 0 <= i < |n| ==> n[i] == LowerChar(r[i]) && (n[i] == '-' <==> r[i] == '-');
    if InNormalForm(name) {
      NormalFormIsFixed(name);
      LowerOfLower(name);
    }
  }

  /** A redirect target is never redirected again. */
  lemma NormalizeIsIdempotent(name: Name)
    ensures NormalizeName(NormalizeName(name)) == NormalizeName(name)
  {
    NormalizedIffInNormalForm(name);
    NormalizedIffInNormalForm(NormalizeName(name));
  }

  // ---------- Which names share a directory ----------

  lemma {:induction false} SkipRunIgnores(run: Name, s: Name)
    requires forall i :: 0 <= i < |run| ==> IsSeparator(run[i])
    ensures SkipRun(run + s) == SkipRun(s)
  {
    if run == [] {
      assert run + s == s;
    } else {
      assert (run + s)[1..] == run[1..] + s;
      SkipRunIgnores(run[1..], s);
    }
  }

  /** Any two non-empty runs of separators in the same place normalize alike. */
  lemma {:induction false} RunsAreAlike(u: Name, run: Name, run': Name, v: Name)
    requires run != [] && run' != []
    requires forall i :: 0 <= i < |run| ==> IsSeparator(run[i])
    requires forall i :: 0 <= i < |run'| ==> IsSeparator(run'[i])
    ensures CollapseRuns(u + run + v) == CollapseRuns(u + run' + v)
    decreases |u|, 0
  {
    var s, s' := u + run + v, u + run' + v;
    if u == [] {
      assert s[1..] == run[1..] + v && s'[1..] == run'[1..] + v;
      SkipRunIgnores(run[1..], v);
      SkipRunIgnores(run'[1..], v);
    } else if IsSeparator(u[0]) {
      assert s[1..] == u[1..] + run + v && s'[1..] == u[1..] + run' + v;
      SkipRunsAlike(u[1..], run, run', v);
    } else {
      assert s[1..] == u[1..] + run + v && s'[1..] == u[1..] + run' + v;
      RunsAreAlike(u[1..], run, run', v);
    }
  }

  lemma {:induction false} SkipRunsAlike(u: Name, run: Name, run': Name, v: Name)
    requires run != [] && run' != []
    requires forall i :: 0 <= i < |run| ==> IsSeparator(run[i])
    requires forall i :: 0 <= i < |run'| ==> IsSeparator(run'[i])
    ensures CollapseRuns(SkipRun(u + run + v)) == CollapseRuns(SkipRun(u + run' + v))
    decreases |u|, 1
  {
    if u == [] {
      assert u + run + v == run + v && u + run' + v == run' + v;
      SkipRunIgnores(run, v);
      SkipRunIgnores(run', v);
    } else if IsSeparator(u[0]) {
      assert (u + run + v)[1..] == u[1..] + run + v && (u + run' + v)[1..] == u[1..] + run' + v;
      SkipRunsAlike(u[1..], run, run', v);
    } else {
      RunsAreAlike(u, run, run', v);
    }
  }

  /** Spellings that differ only in the separators between two parts name one directory. */
  lemma SpellingsCollide(u: Name, run: Name, run': Name, v: Name)
    requires run != [] && run' != []
    requires forall i :: 0 <= i < |run| ==> IsSeparator(run[i])
    requires forall i :: 0 <= i < |run'| ==> IsSeparator(run'[i])
    ensures NormalizeName(u + run + v) == NormalizeName(u + run' + v)
  {
    RunsAreAlike(u, run, run', v);
  }

  lemma {:induction false} SkipRunOfLower(s: Name)
    ensures SkipRun(ToLower(s)) == ToLower(SkipRun(s))
  {
    if s != [] && IsSeparator(s[0]) {
      assert ToLower(s)[1..] == ToLower(s[1..]);
      SkipRunOfLower(s[1..]);
    }
  }

  lemma {:induction false} CollapseOfLower(s: Name)
    ensures CollapseRuns(ToLower(s)) == ToLower(CollapseRuns(s))
    decreases |s|
  {
    if s != [] {
      assert ToLower(s)[1..] == ToLower(s[1..]);
      if IsSeparator(s[0]) {
        SkipRunOfLower(s[1..]);
        CollapseOfLower(SkipRun(s[1..]));
      } else {
        CollapseOfLower(s[1..]);
      }
    }
  }

  /** So do spellings that differ only in case. */
  lemma CaseIsIgnored(a: Name, b: Name)
    requires ToLower(a) == ToLower(b)
    ensures NormalizeName(a) == NormalizeName(b)
  {
    CollapseOfLower(a);
    CollapseOfLower(b);
    LowerOfLower(CollapseRuns(a));
    LowerOfLower(CollapseRuns(b));
  }

  // ---------- The regular expression ----------

  /** f replaces every longest run of dashes, underscores and dots by one dash, and every
      upper-case letter by its lower-case one, and leaves everything else. */
  ghost predicate ReplacesRuns(f: Name -> Name) {
    && f([]) == []
    && (forall c: char, s: Name {:trigger f([c] + s)} :: c != '-' && c != '_' && c != '.' ==>
          f([c] + s) == [if 'A' <= c <= 'Z' then (c as int + 32) as char else c] + f(s))
    && (forall run: Name, s: Name {:trigger f(run + s)} ::
          run != [] && (forall i :: 0 <= i < |run| ==> run[i] == '-' || run[i] == '_' || run[i] == '.')
          && (s != [] ==> s[0] != '-' && s[0] != '_' && s[0] != '.') ==>
            f(run + s) == ['-'] + f(s))
  }

  lemma LowerCons(c: char, s: Name)
    ensures ToLower([c] + s) == [if 'A' <= c <= 'Z' then (c as int + 32) as char else c] + ToLower(s)
  {
  }

  lemma NormalizeReplacesRuns()
    ensures ReplacesRuns(NormalizeName)
  {
    forall c: char, s: Name | c != '-' && c != '_' && c != '.'
      ensures NormalizeName([c] + s) == [if 'A' <= c <= 'Z' then (c as int + 32) as char else c] + NormalizeName(s)
    {
      assert ([c] + s)[1..] == s;
      LowerCons(c, CollapseRuns(s));
    }
    forall run: Name, s: Name
      | run != [] && (forall i :: 0 <= i < |run| ==> run[i] == '-' || run[i] == '_' || run[i] == '.')
        && (s != [] ==> s[0] != '-' && s[0] != '_' && s[0] != '.')
      ensures NormalizeName(run + s) == ['-'] + NormalizeName(s)
    {
      assert (run + s)[1..] == run[1..] + s;
      SkipRunIgnores(run[1..], s);
      assert SkipRun(s) == s;
      LowerCons('-', CollapseRuns(s));
    }
  }

  /** Main result: normalization is the one function that does so. */
  lemma {:induction false} NormalizeIsTheOne(f: Name -> Name, s: Name)
    requires ReplacesRuns(f)
    ensures ReplacesRuns(NormalizeName) && f(s) == NormalizeName(s)
    decreases |s|
  {
    NormalizeReplacesRuns();
    if s != [] {
      if IsSeparator(s[0]) {
        var rest := SkipRun(s[1..]);
        var run := LeadingRun(s);
        NormalizeIsTheOne(f, rest);
        assert f(run + rest) == ['-'] + f(rest);
        assert NormalizeName(run + rest) == ['-'] + NormalizeName(rest);
      } else {
        NormalizeIsTheOne(f, s[1..]);
        assert s == [s[0]] + s[1..];
        assert f([s[0]] + s[1..]) == f(s) && NormalizeName([s[0]] + s[1..]) == NormalizeName(s);
      }
    }
  }

  lemma {:induction false} LeadingRun(s: Name) returns (run: Name)
    ensures s == run + SkipRun(s) && forall i :: 0 <= i < |run| ==> IsSeparator(run[i])
    ensures s != [] && IsSeparator(s[0]) ==> run != [] && SkipRun(s) == SkipRun(s[1..])
  {
    if s != [] && IsSeparator(s[0]) {
      run := LeadingRun(s[1..]);
      run := [s[0]] + run;
    } else {
      run := [];
    }
  }
}
