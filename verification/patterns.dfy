/** Deleting every match of a fixed pattern, as `str.replace(lit, "")` and
    `re.sub(pattern, "", text)` do for the few patterns the cleaners use.
    Each regular expression is read as the deterministic scanner its
    backtracking match amounts to; no general regex engine is modelled. */
module Patterns {
  import opened Text

  /** The patterns deleted by the cleaners. */
  datatype Pattern =
      /** A literal string (str.replace, or an escaped literal regex). */
    | Literal(text: string)
      /** An alternation of escaped literals; the first alternative that
          matches at a position wins, as in a backtracking regex. */
    | AnyLiteral(alts: seq<string>)
      /** `!\[cover_image\]\(https?://[^\)]+\)` */
    | CoverImage
      /** `撰稿人:\s*\S+` with an ASCII colon. */
    | AsciiByline

  predicate WellFormed(p: Pattern) {
    match p
    case Literal(t) => |t| > 0
    case AnyLiteral(alts) => forall k :: 0 <= k < |alts| ==> |alts[k]| > 0
    case _ => true
  }

  const CoverImageStart: string := "![cover_image](http"
  const AsciiBylineKey: string := "撰稿人:"

  /** Length of the first alternative that is a prefix of `s`. */
  function FirstAlternative(alts: seq<string>, s: string): (r: Option<nat>)
    ensures r.Some? ==> exists k :: 0 <= k < |alts| && |alts[k]| == r.value && StartsWith(s, alts[k])
                                    && forall j :: 0 <= j < k ==> !StartsWith(s, alts[j])
    ensures r.None? ==> forall k :: 0 <= k < |alts| ==> !StartsWith(s, alts[k])
  {
    if alts == [] then None
    else if StartsWith(s, alts[0]) then Some(|alts[0]|)
    else
      var r := FirstAlternative(alts[1..], s);
      assert forall k :: 1 <= k < |alts| ==> alts[k] == alts[1..][k - 1];
      r
  }

  /** `![cover_image](http`, an optional `s`, `://`, a non-empty run of
      characters other than `)` (newlines included), then `)`. The run is
      maximal because `[^\)]+` is greedy and must be followed by `)`. */
  function CoverImageLength(s: string): Option<nat> {
    if !StartsWith(s, CoverImageStart) then None
    else
      var a := |CoverImageStart| + (if |CoverImageStart| < |s| && s[|CoverImageStart|] == 's' then 1 else 0);
      if !StartsWith(s[a..], "://") then None
      else
        var b := a + 3;
        var c := b + SpanOut(s[b..], Among({')'}));
        if c == b || c == |s| then None else Some(c + 1)
  }

  /** `撰稿人:`, the whitespace after it (newlines included), then a
      non-empty maximal run of non-whitespace. */
  function AsciiBylineLength(s: string): Option<nat> {
    if !StartsWith(s, AsciiBylineKey) then None
    else
      var a := |AsciiBylineKey| + SpanIn(s[|AsciiBylineKey|..], Spaces);
      var b := a + SpanOut(s[a..], Spaces);
      if b == a then None else Some(b)
  }

  /** Length of the match of `p` that starts at the beginning of `s`, if any. */
  function MatchLength(p: Pattern, s: string): (r: Option<nat>)
    requires WellFormed(p)
    ensures r.Some? ==> 0 < r.value <= |s|
  {
    match p
    case Literal(t) => if StartsWith(s, t) then Some(|t|) else None
    case AnyLiteral(alts) => FirstAlternative(alts, s)
    case CoverImage => CoverImageLength(s)
    case AsciiByline => AsciiBylineLength(s)
  }

  /** The text with every match of `p` deleted, scanning left to right and
      resuming after each match, so matches never overlap. */
  function Delete(p: Pattern, s: string): (r: string)
    requires WellFormed(p)
    ensures IsSubseq(r, s)
    decreases |s|
  {
    if s == [] then []
    else
      match MatchLength(p, s)
      case Some(n) =>
        var r := Delete(p, s[n..]);
        SubseqOfSuffix(r, s, n);
        r
      case None =>
        var r := Delete(p, s[1..]);
        assert ([s[0]] + r)[1..] == r;
        [s[0]] + r
  }

  /** Where `p` does not match, the first character is kept. */
  lemma {:induction false} DeleteStep(p: Pattern, s: string)
    requires WellFormed(p) && s != [] && MatchLength(p, s).None?
    ensures Delete(p, s) == [s[0]] + Delete(p, s[1..])
  {
  }

  /** A text in which `p` matches nowhere comes back unchanged. */
  lemma {:induction false} DeleteNoMatch(p: Pattern, s: string)
    requires WellFormed(p)
    requires forall i :: 0 <= i < |s| ==> MatchLength(p, s[i..]).None?
    ensures Delete(p, s) == s
    decreases |s|
  {
    if s != [] {
      assert s[0..] == s;
      assert forall i :: 0 <= i < |s| - 1 ==> s[1..][i..] == s[i + 1..];
      DeleteNoMatch(p, s[1..]);
    }
  }

  /** No match in front of `x + s` means no match in front of `x[1..] + s`. */
  lemma {:induction false} NoMatchInTail(p: Pattern, x: string, s: string)
    requires WellFormed(p) && x != []
    requires forall i :: 0 <= i < |x| ==> MatchLength(p, (x + s)[i..]).None?
    ensures forall i :: 0 <= i < |x| - 1 ==> MatchLength(p, (x[1..] + s)[i..]).None?
  {
    forall i | 0 <= i < |x| - 1
      ensures MatchLength(p, (x[1..] + s)[i..]).None?
    {
      assert (x[1..] + s)[i..] == (x + s)[i + 1..];
    }
  }

  /** One kept character in front of a text whose deletion is known. */
  lemma {:induction false} DeleteConsKept(p: Pattern, x: string, s: string)
    requires WellFormed(p) && x != [] && MatchLength(p, x + s).None?
    requires Delete(p, x[1..] + s) == x[1..] + Delete(p, s)
    ensures Delete(p, x + s) == x + Delete(p, s)
  {
    var t := x + s;
    assert t[0] == x[0] && t[1..] == x[1..] + s;
    DeleteStep(p, t);
    var tail := Delete(p, t[1..]);
    assert tail == x[1..] + Delete(p, s);
    assert Delete(p, t) == [x[0]] + tail;
    ConsAppend(x, Delete(p, s));
  }

  /** Text in front of the first match is kept as it is: a match is deleted
      wherever it occurs, not only at the start. */
  lemma {:induction false} DeleteKeepsUnmatchedPrefix(p: Pattern, x: string, s: string)
    requires WellFormed(p)
    requires forall i :: 0 <= i < |x| ==> MatchLength(p, (x + s)[i..]).None?
    ensures Delete(p, x + s) == x + Delete(p, s)
    decreases |x|
  {
    if x != [] {
      assert (x + s)[0..] == x + s;
      NoMatchInTail(p, x, s);
      DeleteKeepsUnmatchedPrefix(p, x[1..], s);
      DeleteConsKept(p, x, s);
    } else {
      assert x + s == s;
    }
  }

  /** Unmatched text followed by one match that runs to the end: only the
      unmatched text is left. */
  lemma {:induction false} DeleteTrailingMatch(p: Pattern, x: string, s: string)
    requires WellFormed(p) && s != []
    requires forall i :: 0 <= i < |x| ==> MatchLength(p, (x + s)[i..]).None?
    requires MatchLength(p, s) == Some(|s|)
    ensures Delete(p, x + s) == x
  {
    DeleteKeepsUnmatchedPrefix(p, x, s);
    assert Delete(p, s) == Delete(p, s[|s|..]);
    assert s[|s|..] == [];
  }

  /** With nothing of `t` in `s`, deleting the literal `t` changes nothing. */
  lemma {:induction false} LiteralAbsent(t: string, s: string)
    requires |t| > 0 && !Contains(s, t)
    ensures Delete(Literal(t), s) == s
  {
    forall i | 0 <= i < |s|
      ensures MatchLength(Literal(t), s[i..]).None?
    {
      if StartsWith(s[i..], t) {
        assert s[i..][..|t|] == s[i..i + |t|];
        assert OccursAt(s, t, i);
      }
    }
    DeleteNoMatch(Literal(t), s);
  }

  /** With no alternative anywhere in `s`, deleting the alternation changes
      nothing. */
  lemma {:induction false} AnyLiteralAbsent(alts: seq<string>, s: string)
    requires WellFormed(AnyLiteral(alts))
    requires forall k :: 0 <= k < |alts| ==> !Contains(s, alts[k])
    ensures Delete(AnyLiteral(alts), s) == s
  {
    forall i | 0 <= i < |s|
      ensures MatchLength(AnyLiteral(alts), s[i..]).None?
    {
      forall k | 0 <= k < |alts| ensures !StartsWith(s[i..], alts[k]) {
        if StartsWith(s[i..], alts[k]) {
          assert s[i..][..|alts[k]|] == s[i..i + |alts[k]|];
          assert OccursAt(s, alts[k], i);
        }
      }
    }
    DeleteNoMatch(AnyLiteral(alts), s);
  }

  /** Deleting a one-character literal is filtering that character out. */
  lemma {:induction false} DeleteCharIsWithout(c: char, s: string)
    ensures Delete(Literal([c]), s) == Without(s, c)
    decreases |s|
  {
    if s != [] {
      assert StartsWith(s, [c]) <==> s[0] == c by { assert s[..1] == [s[0]]; }
      DeleteCharIsWithout(c, s[1..]);
    }
  }

  /** Deleting a one-character literal leaves no copy of that character. */
  lemma {:induction false} DeleteCharGone(c: char, s: string)
    ensures c !in Delete(Literal([c]), s)
    decreases |s|
  {
    if s != [] {
      if StartsWith(s, [c]) {
        DeleteCharGone(c, s[1..]);
      } else {
        assert s[0] != c by { assert s[..1] == [s[0]]; }
        DeleteCharGone(c, s[1..]);
      }
    }
  }

  /** A deletion never brings in a character the text did not have. */
  lemma {:induction false} DeleteKeepsAbsent(p: Pattern, s: string, c: char)
    requires WellFormed(p) && c !in s
    ensures c !in Delete(p, s)
  {
    SubseqMembers(Delete(p, s), s);
  }
}
