/** The part of Go's `strings` package the export relies on: prefix tests,
    whitespace and comma trimming, first-occurrence search, `SplitN(s, sep, 2)`,
    a single `Replace`, and `Join`. */
module Text {
  import opened Types

  /** Whitespace as Go's `strings.TrimSpace` sees it on ASCII text. */
  predicate IsSpace(c: char) {
    c == ' ' || c == '\t' || c == '\n' || c == '\r' || c as int == 0x0B || c as int == 0x0C
  }

  predicate AllSpace(s: string) {
    forall i :: 0 <= i < |s| ==> IsSpace(s[i])
  }

  /** `strings.HasPrefix`. */
  predicate HasPrefix(s: string, p: string) {
    p <= s
  }

  predicate EndsWithComma(s: string) {
    |s| > 0 && s[|s| - 1] == ','
  }

  // ---------------------------------------------------------------- trimming

  function TrimLeftSpace(s: string): string {
    if s != [] && IsSpace(s[0]) then TrimLeftSpace(s[1..]) else s
  }

  function TrimRightSpace(s: string): string {
    if s != [] && IsSpace(s[|s| - 1]) then TrimRightSpace(s[..|s| - 1]) else s
  }

  /** `strings.TrimSpace`: the text between the leading and the trailing
      whitespace. */
  function TrimSpace(s: string): string {
    TrimRightSpace(TrimLeftSpace(s))
  }

  /** `strings.TrimRight(s, ",")`: every trailing comma goes, not just one. */
  function TrimRightCommas(s: string): (r: string)
    ensures r <= s
    ensures !EndsWithComma(r)
    ensures forall i :: |r| <= i < |s| ==> s[i] == ','
  {
    if EndsWithComma(s) then TrimRightCommas(s[..|s| - 1]) else s
  }

  // ----------------------------------------------------------------- search

  /** `p` occurs in `s` starting at index `k`. */
  predicate OccursAt(s: string, p: string, k: int) {
    0 <= k && k + |p| <= |s| && s[k..k + |p|] == p
  }

  /** `strings.Contains`, as a plain existence statement. */
  predicate Contains(s: string, p: string) {
    exists k :: 0 <= k <= |s| && OccursAt(s, p, k)
  }

  /** `p` occurs at `k` and nowhere before it. */
  predicate FirstAt(s: string, p: string, k: int) {
    OccursAt(s, p, k) && forall m :: 0 <= m < k ==> !OccursAt(s, p, m)
  }

  function FindFrom(s: string, p: string, k: nat): (r: Option<nat>)
    ensures r.Some? ==> k <= r.value && OccursAt(s, p, r.value)
    ensures r.Some? ==> forall m :: k <= m < r.value ==> !OccursAt(s, p, m)
    ensures r.None? ==> forall m :: k <= m ==> !OccursAt(s, p, m)
    decreases |s| - k
  {
    if k + |p| > |s| then None
    else if OccursAt(s, p, k) then Some(k)
    else FindFrom(s, p, k + 1)
  }

  /** `strings.Index`: the first occurrence of `p` in `s`, if any. */
  function IndexOf(s: string, p: string): (r: Option<nat>)
    ensures r.None? <==> !Contains(s, p)
    ensures r.Some? ==> FirstAt(s, p, r.value)
  {
    FindFrom(s, p, 0)
  }

  /** `strings.SplitN(s, sep, 2)`: the text before and after the first `sep`,
      or `None` when `sep` does not occur (Go then returns `[s]`). */
  function Cut(s: string, sep: string): (r: Option<(string, string)>)
    ensures r.None? <==> !Contains(s, sep)
    ensures r.Some? ==> s == r.value.0 + sep + r.value.1 && FirstAt(s, sep, |r.value.0|)
  {
    match IndexOf(s, sep)
    case None => None
    case Some(i) =>
      assert s == s[..i] + sep + s[i + |sep|..] by {
        assert s[i..i + |sep|] == sep;
        assert s == s[..i] + s[i..i + |sep|] + s[i + |sep|..];
      }
      Some((s[..i], s[i + |sep|..]))
  }

  /** `strings.Replace(s, old, new, 1)`. */
  function ReplaceFirst(s: string, pat: string, repl: string): (r: string)
    ensures !Contains(s, pat) ==> r == s
    ensures Contains(s, pat) ==>
      exists i :: FirstAt(s, pat, i) && r == s[..i] + repl + s[i + |pat|..]
  {
    match Cut(s, pat)
    case None => s
    case Some((before, after)) =>
      var i := |before|;
      assert s[..i] == before && s[i + |pat|..] == after by {
        assert s == before + pat + after;
      }
      before + repl + after
  }

  // ----------------------------------------------------------------- joining

  /** `strings.Join(xs, sep)`. */
  function Join(xs: seq<string>, sep: string): string {
    if xs == [] then []
    else if |xs| == 1 then xs[0]
    else xs[0] + sep + Join(xs[1..], sep)
  }

  /** What the source's `acc += x + ","` loops build: every piece followed by
      the terminator. */
  function Terminated(xs: seq<string>, t: string): string {
    if xs == [] then [] else xs[0] + t + Terminated(xs[1..], t)
  }

  // ------------------------------------------------------------------ lemmas

  /** `Cut` splits at the first occurrence and nowhere else: any split of `s`
      around an occurrence with no earlier occurrence is the one it returns. */
  lemma CutUnique(s: string, sep: string, a: string, b: string)
    requires s == a + sep + b
    requires forall k :: 0 <= k < |a| ==> !OccursAt(s, sep, k)
    ensures Cut(s, sep) == Some((a, b))
  {
    assert s[|a|..|a| + |sep|] == sep;
    assert OccursAt(s, sep, |a|);
    var r := Cut(s, sep);
    assert |r.value.0| == |a|;
    assert r.value.0 == s[..|a|] == a;
    assert r.value.1 == s[|a| + |sep|..] == b;
  }

  /** A pattern that does not contain `c` cannot be found across a `c`: if it
      is absent from `a`, it does not occur in `a + [c] + b` before `b`. */
  lemma {:induction false} NotAcross(a: string, c: char, b: string, p: string)
    requires c !in p && p != []
    requires !Contains(a, p)
    ensures forall k :: 0 <= k <= |a| ==> !OccursAt(a + [c] + b, p, k)
  {
    var s := a + [c] + b;
    forall k | 0 <= k <= |a|
      ensures !OccursAt(s, p, k)
    {
      if k + |p| <= |a| {
        assert s[k..k + |p|] == a[k..k + |p|];
        assert !OccursAt(a, p, k);
      } else if k + |p| <= |s| {
        assert s[k..k + |p|][|a| - k] == c;
      }
    }
  }

  /** Left trimming drops a run of leading whitespace and stops at the first
      other character. */
  lemma {:induction false} TrimLeftSpaceSplit(s: string)
    ensures var r := TrimLeftSpace(s);
      && |r| <= |s| && r == s[|s| - |r|..]
      && AllSpace(s[..|s| - |r|])
      && (r == [] || !IsSpace(r[0]))
  {
    if s != [] && IsSpace(s[0]) {
      TrimLeftSpaceSplit(s[1..]);
      var r := TrimLeftSpace(s[1..]);
      assert s[..|s| - |r|] == [s[0]] + s[1..][..|s| - 1 - |r|];
    }
  }

  /** Right trimming drops a run of trailing whitespace and stops at the last
      other character. */
  lemma {:induction false} TrimRightSpaceSplit(s: string)
    ensures var r := TrimRightSpace(s);
      && r <= s
      && AllSpace(s[|r|..])
      && (r == [] || !IsSpace(r[|r| - 1]))
  {
    if s != [] && IsSpace(s[|s| - 1]) {
      TrimRightSpaceSplit(s[..|s| - 1]);
      var r := TrimRightSpace(s[..|s| - 1]);
      assert s[|r|..] == s[..|s| - 1][|r|..] + [s[|s| - 1]];
    }
  }

  /** What `TrimSpace` keeps is no longer than the text and neither starts
      nor ends with whitespace. */
  lemma TrimSpaceEnds(s: string)
    ensures var r := TrimSpace(s);
      |r| <= |s| && (r == [] || (!IsSpace(r[0]) && !IsSpace(r[|r| - 1])))
  {
    var l := TrimLeftSpace(s);
    TrimLeftSpaceSplit(s);
    TrimRightSpaceSplit(l);
  }

  /** Only the padding is removed: trimming a text with non-blank ends and
      whitespace around it gives that text back. */
  lemma TrimSpaceUnique(lead: string, m: string, trail: string)
    requires AllSpace(lead) && AllSpace(trail)
    requires m == [] || (!IsSpace(m[0]) && !IsSpace(m[|m| - 1]))
    ensures TrimSpace(lead + m + trail) == m
  {
    var s := lead + m + trail;
    var l := TrimLeftSpace(s);
    TrimLeftSpaceSplit(s);
    if m == [] {
      assert AllSpace(s);
      TrimLeftAllSpace(s);
    } else {
      assert s[|lead|] == m[0];
      assert |s| - |l| <= |lead|;
      assert l[0] == s[|s| - |l|];
      assert |s| - |l| == |lead|;
      assert l == m + trail;
      var r := TrimRightSpace(l);
      TrimRightSpaceSplit(l);
      assert l[|m| - 1] == m[|m| - 1];
      assert |r| >= |m|;
      assert |r| == |m|;
      assert r == l[..|m|] == m;
    }
  }

  /** A text of whitespace only trims to nothing. */
  lemma {:induction false} TrimLeftAllSpace(s: string)
    requires AllSpace(s)
    ensures TrimLeftSpace(s) == []
  {
    if s != [] {
      TrimLeftAllSpace(s[1..]);
    }
  }

  /** A one-character pattern occurs exactly when the character does. */
  lemma ContainsChar(s: string, c: char)
    ensures Contains(s, [c]) <==> c in s
  {
    if c in s {
      var k :| 0 <= k < |s| && s[k] == c;
      assert s[k..k + 1] == [c];
      assert OccursAt(s, [c], k);
    }
    if Contains(s, [c]) {
      var k :| 0 <= k <= |s| && OccursAt(s, [c], k);
      assert s[k..k + 1][0] == s[k];
    }
  }

  /** A one-character prefix is a test of the first character. */
  lemma PrefixChar(s: string, c: char)
    ensures HasPrefix(s, [c]) <==> (|s| > 0 && s[0] == c)
  {
    if |s| > 0 && s[0] == c {
      assert s[..1] == [c];
    }
  }

  /** The first occurrence of a character: it is not in the text before it. */
  lemma FirstCharAt(s: string, c: char, i: int)
    requires FirstAt(s, [c], i)
    ensures c !in s[..i] && s[i] == c
  {
    assert s[i..i + 1][0] == s[i];
    forall k | 0 <= k < i ensures s[k] != c {
      assert !OccursAt(s, [c], k);
      assert s[k..k + 1] == [s[k]];
    }
  }

  /** Trimming is idempotent. */
  lemma TrimSpaceIdempotent(s: string)
    ensures TrimSpace(TrimSpace(s)) == TrimSpace(s)
  {
    var m := TrimSpace(s);
    TrimSpaceEnds(s);
    TrimSpaceUnique([], m, []);
    assert [] + m + [] == m;
  }

  /** A comma the loop appends after the last piece is trimmed away again. */
  lemma TrimRightCommasAppended(s: string)
    ensures TrimRightCommas(s + ",") == TrimRightCommas(s)
  {
    assert (s + ",")[..|s + ","| - 1] == s;
  }

  /** Commas at the end of a suffix are trimmed without touching a prefix
      that itself ends in something other than a comma. */
  lemma {:induction false} TrimRightCommasAfter(p: string, x: string)
    requires p != [] && !EndsWithComma(p)
    ensures TrimRightCommas(p + x) == p + TrimRightCommas(x)
    decreases |x|
  {
    if EndsWithComma(x) {
      assert (p + x)[..|p + x| - 1] == p + x[..|x| - 1];
      TrimRightCommasAfter(p, x[..|x| - 1]);
    } else {
      assert !EndsWithComma(p + x);
    }
  }

  /** Building by "append each piece and a separator, then trim commas" gives
      the joined pieces, trimmed. */
  lemma {:induction false} TerminatedIsJoin(xs: seq<string>, t: string)
    requires xs != []
    ensures Terminated(xs, t) == Join(xs, t) + t
  {
    if |xs| == 1 {
      assert Terminated(xs[1..], t) == [];
    } else {
      TerminatedIsJoin(xs[1..], t);
      assert Terminated(xs, t) == xs[0] + t + (Join(xs[1..], t) + t);
    }
  }

  lemma TrimTerminatedCommas(xs: seq<string>)
    ensures TrimRightCommas(Terminated(xs, ",")) == TrimRightCommas(Join(xs, ","))
  {
    if xs != [] {
      TerminatedIsJoin(xs, ",");
      TrimRightCommasAppended(Join(xs, ","));
    }
  }

  /** Three pieces joined. */
  lemma JoinThree(a: string, b: string, c: string, sep: string)
    ensures Join([a, b, c], sep) == a + sep + b + sep + c
  {
    assert [a, b, c][1..] == [b, c] && [b, c][1..] == [c];
    assert Join([c], sep) == c;
    assert Join([b, c], sep) == b + sep + c;
  }

  /** A join whose last piece is a non-empty text not ending in a comma does
      not end in a comma either. */
  lemma {:induction false} JoinEnd(xs: seq<string>, sep: string)
    requires xs != [] && xs[|xs| - 1] != []
    ensures Join(xs, sep) != [] && Join(xs, sep)[|Join(xs, sep)| - 1] == xs[|xs| - 1][|xs[|xs| - 1]| - 1]
  {
    if |xs| > 1 {
      JoinEnd(xs[1..], sep);
      assert xs[1..][|xs[1..]| - 1] == xs[|xs| - 1];
    }
  }
}
