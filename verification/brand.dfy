/**
 * `brandCanonicalize` (src/App.jsx:102-113): eight passes of
 * `s.replace(/\bToken\b/gi, CANON)`, each rewriting every whole-word,
 * case-insensitive occurrence of one bank or brand name to its
 * canonical spelling.
 *
 * Each pass is modelled literally as a left-to-right scan. Its effect is
 * then described as an overlay: a sequence of "hits" (the canonical
 * character to write, or nothing) that depends only on the lower-cased
 * text. Because every rewrite keeps the lower-cased text, all eight
 * passes see the same hits whatever ran before, which is why
 * canonicalisation is invisible to `toNorm` and idempotent.
 */
module Brand {
  import opened Wrappers
  import opened Text

  /** One replacement pass: the token as the case-insensitive pattern sees it, and its canonical spelling. */
  datatype Rule = Rule(token: string, canon: string)

  /** The canonical spelling differs from the token in letter case only. */
  predicate WellFormed(rule: Rule) {
    rule.token != []
    && (forall k | 0 <= k < |rule.token| :: IsLowerWordChar(rule.token[k]))
    && |rule.canon| == |rule.token|
    && (forall k | 0 <= k < |rule.token| :: LowerChar(rule.canon[k]) == rule.token[k])
  }

  predicate AllWellFormed(rules: seq<Rule>) {
    forall k | 0 <= k < |rules| :: WellFormed(rules[k])
  }

  /** The passes, in source order. */
  const BrandRules: seq<Rule> := [
    Rule("makemytrip", "MakeMyTrip"),
    Rule("icici", "ICICI"),
    Rule("hdfc", "HDFC"),
    Rule("sbi", "SBI"),
    Rule("idfc", "IDFC"),
    Rule("pnb", "PNB"),
    Rule("rbl", "RBL"),
    Rule("yes", "YES")
  ]

  /**
   * `\btoken\b` matches at `i` under the `i` flag: the letters agree up to
   * ASCII case, and the characters just outside are not word characters.
   */
  predicate MatchAt(s: string, i: nat, token: string) {
    i + |token| <= |s|
    && (i == 0 || !IsWordChar(s[i - 1]))
    && (forall k | 0 <= k < |token| :: LowerChar(s[i + k]) == token[k])
    && (i + |token| == |s| || !IsWordChar(s[i + |token|]))
  }

  /** The global replace from position `i` on: after a match the scan resumes behind it. */
  function ReplaceFrom(s: string, i: nat, rule: Rule): (r: string)
    requires i <= |s| && WellFormed(rule)
    ensures |r| == |s| - i
    decreases |s| - i
  {
    if MatchAt(s, i, rule.token) then rule.canon + ReplaceFrom(s, i + |rule.token|, rule)
    else if i < |s| then [s[i]] + ReplaceFrom(s, i + 1, rule)
    else []
  }

  /** `s.replace(/\bToken\b/gi, CANON)`. */
  function Replace(s: string, rule: Rule): (r: string)
    requires WellFormed(rule)
    ensures |r| == |s|
  {
    ReplaceFrom(s, 0, rule)
  }

  /** The passes one after the other. */
  function ApplyRules(s: string, rules: seq<Rule>): string
    requires AllWellFormed(rules)
    decreases |rules|
  {
    if rules == [] then s else ApplyRules(Replace(s, rules[0]), rules[1..])
  }

  lemma BankRulesWellFormed()
    ensures WellFormed(Rule("icici", "ICICI")) && WellFormed(Rule("hdfc", "HDFC"))
  {
  }

  lemma StateBankRulesWellFormed()
    ensures WellFormed(Rule("sbi", "SBI")) && WellFormed(Rule("idfc", "IDFC"))
  {
  }

  lemma TravelRulesWellFormed()
    ensures WellFormed(Rule("makemytrip", "MakeMyTrip")) && WellFormed(Rule("pnb", "PNB"))
  {
  }

  lemma ShortRulesWellFormed()
    ensures WellFormed(Rule("rbl", "RBL")) && WellFormed(Rule("yes", "YES"))
  {
  }

  lemma BrandRulesWellFormed()
    ensures AllWellFormed(BrandRules)
  {
    BankRulesWellFormed();
    StateBankRulesWellFormed();
    TravelRulesWellFormed();
    ShortRulesWellFormed();
  }

  /** `brandCanonicalize`. */
  function BrandCanonicalize(text: string): string {
    BrandRulesWellFormed();
    ApplyRules(text, BrandRules)
  }

  // ---------------------------------------------------------------------
  // Hits and overlays

  /** The canonical characters as hits. */
  function Somes(c: string): (r: seq<Option<char>>)
    ensures |r| == |c| && forall k | 0 <= k < |c| :: r[k] == Some(c[k])
  {
    seq(|c|, k requires 0 <= k < |c| => Some(c[k]))
  }

  /** What one pass writes at each position from `i` on, found by the same scan. */
  function HitsFrom(s: string, i: nat, rule: Rule): (r: seq<Option<char>>)
    requires i <= |s| && WellFormed(rule)
    ensures |r| == |s| - i
    decreases |s| - i
  {
    if MatchAt(s, i, rule.token) then Somes(rule.canon) + HitsFrom(s, i + |rule.token|, rule)
    else if i < |s| then [None] + HitsFrom(s, i + 1, rule)
    else []
  }

  /** `s` with every hit written over it. */
  function Overlay(s: string, h: seq<Option<char>>): (r: string)
    requires |h| == |s|
    ensures |r| == |s| && forall i | 0 <= i < |s| :: r[i] == h[i].GetOr(s[i])
  {
    seq(|s|, i requires 0 <= i < |s| => h[i].GetOr(s[i]))
  }

  /** Overlaying a whole replacement writes exactly that replacement. */
  lemma OverlayMatch(s: string, i: nat, canon: string, h: seq<Option<char>>)
    requires i + |canon| <= |s| && |h| == |s| - i - |canon|
    ensures Overlay(s[i..], Somes(canon) + h) == canon + Overlay(s[i + |canon|..], h)
  {
    var n := |canon|;
    var a := Overlay(s[i..], Somes(canon) + h);
    var b := canon + Overlay(s[i + n..], h);
    forall j | 0 <= j < |a|
      ensures a[j] == b[j]
    {
      if j >= n {
        assert (Somes(canon) + h)[j] == h[j - n];
        assert s[i..][j] == s[i + n..][j - n];
      }
    }
  }

  /** Overlaying a position without a hit keeps its character. */
  lemma OverlayKeep(s: string, i: nat, h: seq<Option<char>>)
    requires i < |s| && |h| == |s| - i - 1
    ensures Overlay(s[i..], [None] + h) == [s[i]] + Overlay(s[i + 1..], h)
  {
    var a := Overlay(s[i..], [None] + h);
    var b := [s[i]] + Overlay(s[i + 1..], h);
    forall j | 0 <= j < |a|
      ensures a[j] == b[j]
    {
      if j >= 1 {
        assert ([None] + h)[j] == h[j - 1];
        assert s[i..][j] == s[i + 1..][j - 1];
      }
    }
  }

  /** One pass writes its hits over the text and leaves everything else alone. */
  lemma {:induction false} ReplaceIsOverlay(s: string, i: nat, rule: Rule)
    requires i <= |s| && WellFormed(rule)
    ensures ReplaceFrom(s, i, rule) == Overlay(s[i..], HitsFrom(s, i, rule))
    decreases |s| - i
  {
    var t := rule.token;
    if MatchAt(s, i, t) {
      var h := HitsFrom(s, i + |t|, rule);
      assert HitsFrom(s, i, rule) == Somes(rule.canon) + h;
      assert ReplaceFrom(s, i + |t|, rule) == Overlay(s[i + |t|..], h) by {
        ReplaceIsOverlay(s, i + |t|, rule);
      }
      OverlayMatch(s, i, rule.canon, h);
    } else if i < |s| {
      var h := HitsFrom(s, i + 1, rule);
      assert HitsFrom(s, i, rule) == [None] + h;
      assert ReplaceFrom(s, i + 1, rule) == Overlay(s[i + 1..], h) by {
        ReplaceIsOverlay(s, i + 1, rule);
      }
      OverlayKeep(s, i, h);
    }
  }

  lemma LowerCharIdempotent(c: char)
    ensures LowerChar(LowerChar(c)) == LowerChar(c)
  {
  }

  /** Whether a pass matches depends only on the lower-cased text. */
  lemma MatchAtLower(s: string, i: nat, token: string)
    ensures MatchAt(s, i, token) <==> MatchAt(Lower(s), i, token)
  {
    var l := Lower(s);
    if i + |token| <= |s| {
      forall j | i <= j < i + |token|
        ensures LowerChar(l[j]) == LowerChar(s[j])
      {
        LowerCharIdempotent(s[j]);
      }
    }
  }

  lemma {:induction false} HitsFromLower(s: string, i: nat, rule: Rule)
    requires i <= |s| && WellFormed(rule)
    ensures HitsFrom(s, i, rule) == HitsFrom(Lower(s), i, rule)
    decreases |s| - i
  {
    MatchAtLower(s, i, rule.token);
    if MatchAt(s, i, rule.token) {
      HitsFromLower(s, i + |rule.token|, rule);
    } else if i < |s| {
      HitsFromLower(s, i + 1, rule);
    }
  }

  /** Every hit has the lower-cased form of the character it replaces. */
  predicate Fits(s: string, h: seq<Option<char>>)
    requires |h| == |s|
  {
    forall i | 0 <= i < |s| && h[i].Some? :: LowerChar(h[i].value) == LowerChar(s[i])
  }

  lemma FitsConcat(a: string, b: string, ha: seq<Option<char>>, hb: seq<Option<char>>)
    requires |ha| == |a| && |hb| == |b| && Fits(a, ha) && Fits(b, hb)
    ensures Fits(a + b, ha + hb)
  {
    forall i | 0 <= i < |a + b| && (ha + hb)[i].Some?
      ensures LowerChar((ha + hb)[i].value) == LowerChar((a + b)[i])
    {
      if i >= |a| {
        assert (ha + hb)[i] == hb[i - |a|] && (a + b)[i] == b[i - |a|];
      }
    }
  }

  lemma CanonFits(s: string, i: nat, rule: Rule)
    requires WellFormed(rule) && MatchAt(s, i, rule.token)
    ensures Fits(s[i..i + |rule.token|], Somes(rule.canon))
  {
    forall k | 0 <= k < |rule.token|
      ensures LowerChar(rule.canon[k]) == LowerChar(s[i + k])
    {
    }
  }

  lemma {:induction false} HitsFit(s: string, i: nat, rule: Rule)
    requires i <= |s| && WellFormed(rule)
    ensures Fits(s[i..], HitsFrom(s, i, rule))
    decreases |s| - i
  {
    var t := rule.token;
    if MatchAt(s, i, t) {
      var h := HitsFrom(s, i + |t|, rule);
      assert HitsFrom(s, i, rule) == Somes(rule.canon) + h;
      assert Fits(s[i + |t|..], h) by { HitsFit(s, i + |t|, rule); }
      assert Fits(s[i..i + |t|], Somes(rule.canon)) by { CanonFits(s, i, rule); }
      assert s[i..] == s[i..i + |t|] + s[i + |t|..];
      FitsConcat(s[i..i + |t|], s[i + |t|..], Somes(rule.canon), h);
    } else if i < |s| {
      var h := HitsFrom(s, i + 1, rule);
      assert HitsFrom(s, i, rule) == [None] + h;
      assert Fits(s[i + 1..], h) by { HitsFit(s, i + 1, rule); }
      assert s[i..] == [s[i]] + s[i + 1..];
      FitsConcat([s[i]], s[i + 1..], [None], h);
    }
  }

  lemma OverlayLower(s: string, h: seq<Option<char>>)
    requires |h| == |s| && Fits(s, h)
    ensures Lower(Overlay(s, h)) == Lower(s)
  {
  }

  /** The hits of a pass over the whole text. */
  function Hits(s: string, rule: Rule): (r: seq<Option<char>>)
    requires WellFormed(rule)
    ensures |r| == |s|
  {
    HitsFrom(s, 0, rule)
  }

  /** A pass is its overlay, and the overlay only changes letter case. */
  lemma ReplaceFacts(s: string, rule: Rule)
    requires WellFormed(rule)
    ensures Replace(s, rule) == Overlay(s, Hits(Lower(s), rule))
    ensures Lower(Replace(s, rule)) == Lower(s)
  {
    assert s[0..] == s;
    ReplaceIsOverlay(s, 0, rule);
    HitsFromLower(s, 0, rule);
    HitsFit(s, 0, rule);
    OverlayLower(s, Hits(s, rule));
  }

  // ---------------------------------------------------------------------
  // All passes

  /** The hits of every pass, all read off the lower-cased text `l`. */
  function AllHits(l: string, rules: seq<Rule>): (r: seq<seq<Option<char>>>)
    requires AllWellFormed(rules)
    ensures |r| == |rules| && forall k | 0 <= k < |r| :: |r[k]| == |l|
  {
    seq(|rules|, k requires 0 <= k < |rules| => Hits(l, rules[k]))
  }

  /** The overlays one after the other. */
  function OverlayAll(s: string, hs: seq<seq<Option<char>>>): (r: string)
    requires forall k | 0 <= k < |hs| :: |hs[k]| == |s|
    ensures |r| == |s|
    decreases |hs|
  {
    if hs == [] then s else OverlayAll(Overlay(s, hs[0]), hs[1..])
  }

  /** The hit of the last overlay that writes position `i`, if any. */
  function LastHit(hs: seq<seq<Option<char>>>, i: nat): Option<char>
    requires forall k | 0 <= k < |hs| :: i < |hs[k]|
  {
    if hs == [] then None
    else match LastHit(hs[1..], i)
      case Some(c) => Some(c)
      case None => hs[0][i]
  }

  /** Running the passes is overlaying hits that all come from the original lower-cased text. */
  lemma {:induction false} ApplyRulesOverlay(s: string, rules: seq<Rule>)
    requires AllWellFormed(rules)
    ensures ApplyRules(s, rules) == OverlayAll(s, AllHits(Lower(s), rules))
    ensures Lower(ApplyRules(s, rules)) == Lower(s)
    decreases |rules|
  {
    if rules != [] {
      var s1 := Replace(s, rules[0]);
      ReplaceFacts(s, rules[0]);
      ApplyRulesOverlay(s1, rules[1..]);
      assert AllHits(Lower(s), rules)[1..] == AllHits(Lower(s1), rules[1..]);
    }
  }

  /** Each position ends up with its last hit, or keeps its character. */
  lemma {:induction false} OverlayAllAt(s: string, hs: seq<seq<Option<char>>>, i: nat)
    requires forall k | 0 <= k < |hs| :: |hs[k]| == |s|
    requires i < |s|
    ensures OverlayAll(s, hs)[i] == LastHit(hs, i).GetOr(s[i])
    decreases |hs|
  {
    if hs != [] {
      OverlayAllAt(Overlay(s, hs[0]), hs[1..], i);
    }
  }

  /** Overlaying the same hits a second time changes nothing. */
  lemma OverlayAllTwice(s: string, hs: seq<seq<Option<char>>>)
    requires forall k | 0 <= k < |hs| :: |hs[k]| == |s|
    ensures OverlayAll(OverlayAll(s, hs), hs) == OverlayAll(s, hs)
  {
    var t := OverlayAll(s, hs);
    forall i | 0 <= i < |s|
      ensures OverlayAll(t, hs)[i] == t[i]
    {
      OverlayAllAt(t, hs, i);
      OverlayAllAt(s, hs, i);
    }
  }

  // ---------------------------------------------------------------------
  // Properties of brandCanonicalize

  /** Canonicalisation changes letter case only. */
  lemma CanonicalizeKeepsLower(s: string)
    ensures Lower(BrandCanonicalize(s)) == Lower(s)
  {
    BrandRulesWellFormed();
    ApplyRulesOverlay(s, BrandRules);
  }

  /** Canonicalisation is invisible to `toNorm`, so it never changes which key a name files under. */
  lemma CanonicalizeKeepsNorm(s: string)
    ensures ToNorm(BrandCanonicalize(s)) == ToNorm(s)
  {
    CanonicalizeKeepsLower(s);
  }

  /** Canonicalising twice is canonicalising once. */
  lemma CanonicalizeIdempotent(s: string)
    ensures BrandCanonicalize(BrandCanonicalize(s)) == BrandCanonicalize(s)
  {
    BrandRulesWellFormed();
    var t := BrandCanonicalize(s);
    var hs := AllHits(Lower(s), BrandRules);
    ApplyRulesOverlay(s, BrandRules);
    ApplyRulesOverlay(t, BrandRules);
    OverlayAllTwice(s, hs);
  }
}
