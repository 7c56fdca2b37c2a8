/**
 * Offer resolution: from the selected instrument to the offers shown,
 * grouped by source (src/App.jsx:192-257, 604-689).
 *
 * `matchesFor` keeps the rows of one offer file that mention the selected
 * instrument; `dedupWrappers` drops every offer whose `offerKey` has been
 * seen, threading one `seen` set through Permanent (credit only), Blinkit,
 * Swiggy Instamart, Zepto and BigBasket, in that order.
 */
module Offers {
  import opened Wrappers
  import opened Text
  import opened Entities
  import opened Names
  import opened Brand
  import opened Catalog

  // ---------------------------------------------------------------------
  // Offer keys (src/App.jsx:192-210)

  /** The column aliases of the offer's title, image, link and description (src/App.jsx:12-15). */
  const TitleFields: seq<string> := ["Offer", "Title"]
  const ImageFields: seq<string> := ["Image", "Credit Card Image", "Offer Image", "image", "Image URL"]
  const LinkFields: seq<string> := ["Link", "Offer Link"]
  const DescFields: seq<string> := ["Description", "Details", "Offer Description", "Flight Benefit"]

  /** `^https?:\/\/\/?`: an `http` or `https` scheme, with one extra slash allowed. */
  function StripScheme(s: string): (r: string)
    ensures |r| <= |s|
  {
    var rest := if "https://" <= s then s[8..] else if "http://" <= s then s[7..] else s;
    if rest != s && rest != [] && rest[0] == '/' then rest[1..] else rest
  }

  /** `^www\.`. */
  function StripWww(s: string): string {
    if "www." <= s then s[4..] else s
  }

  /** One trailing `/` dropped. */
  function DropSlash(s: string): string {
    if s != [] && s[|s| - 1] == '/' then s[..|s| - 1] else s
  }

  /** `normalizeUrl`: trimmed, lower-cased, without scheme, `www.` or one trailing slash. */
  function NormalizeUrl(u: string): string {
    if u == [] then [] else StripUrl(Lower(Trim(u)))
  }

  /** The three replacements of `normalizeUrl`, applied to trimmed lower-case text. */
  function StripUrl(t: string): string {
    DropSlash(StripWww(StripScheme(t)))
  }

  /** What is left of an address without scheme, `www.` or trailing slash. */
  predicate UrlTail(h: string) {
    && h != [] && h[0] != '/' && h[|h| - 1] != '/'
    && !("www." <= h) && !("https://" <= h) && !("http://" <= h)
  }

  /** The part of a URL that `normalizeUrl` keeps: lower case, no white space at the ends, no scheme, no `www.`. */
  predicate HostPath(h: string) {
    UrlTail(h) && Lower(h) == h && !IsSpace(h[0]) && !IsSpace(h[|h| - 1])
  }

  lemma LowerConcat(a: string, b: string)
    ensures Lower(a + b) == Lower(a) + Lower(b)
  {
  }

  /** Text that is already trimmed and lower case reaches the replacements unchanged. */
  lemma NormalizeUrlFixed(t: string)
    requires t != [] && Lower(Trim(t)) == t
    ensures NormalizeUrl(t) == StripUrl(t)
  {
  }

  /** A host and path preceded by a lower-case prefix without leading white space is still trimmed and lower case. */
  lemma PrefixedFixed(p: string, h: string)
    requires p != [] && !IsSpace(p[0]) && Lower(p) == p && HostPath(h)
    ensures Lower(Trim(p + h)) == p + h
  {
    TrimmedFixed(p + h);
    LowerConcat(p, h);
  }

  /** `normalizeUrl` keeps the host and path of a URL as they are. */
  lemma NormalizeHostPath(h: string)
    requires HostPath(h)
    ensures NormalizeUrl(h) == h
  {
    TrimmedFixed(h);
    NormalizeUrlFixed(h);
  }

  lemma StripUrlPrefixed(p: string, h: string)
    requires p == "https://" || p == "http://" || p == "www." || p == "https://www."
    requires UrlTail(h)
    ensures StripUrl(p + h) == h
  {
    if p == "https://" {
      StripHttps(h);
    } else if p == "http://" {
      StripHttp(h);
    } else if p == "www." {
      StripWwwPrefix(h);
    } else {
      StripHttpsWww(h);
    }
  }

  lemma StripHttps(h: string)
    requires UrlTail(h)
    ensures StripUrl("https://" + h) == h
  {
    var s := "https://" + h;
    assert s[8..] == h;
  }

  lemma StripHttp(h: string)
    requires UrlTail(h)
    ensures StripUrl("http://" + h) == h
  {
    var s := "http://" + h;
    assert s[7..] == h;
  }

  lemma StripWwwPrefix(h: string)
    requires UrlTail(h)
    ensures StripScheme("www." + h) == "www." + h
    ensures StripUrl("www." + h) == h
  {
    var s := "www." + h;
    assert s[0] == 'w';
    assert StripScheme(s) == s;
    assert s[4..] == h;
  }

  lemma StripHttpsWww(h: string)
    requires UrlTail(h)
    ensures StripUrl("https://www." + h) == h
  {
    var s, t := "https://www." + h, "www." + h;
    assert "https://" <= s && s[8..] == t;
    assert StripScheme(s) == t by { assert t[0] == 'w'; }
    StripWwwPrefix(h);
  }

  lemma PrefixSnoc(p: string, h: string)
    requires p != []
    ensures p <= h + "/" ==> p <= h || (p[..|p| - 1] == h && p[|p| - 1] == '/')
  {
    if p <= h + "/" && |p| <= |h| {
      assert p == (h + "/")[..|p|] == h[..|p|];
    }
  }

  lemma StripUrlSlash(h: string)
    requires UrlTail(h)
    ensures StripUrl(h + "/") == h
  {
    var s := h + "/";
    PrefixSnoc("https://", h);
    PrefixSnoc("http://", h);
    PrefixSnoc("www.", h);
    assert s[..|s| - 1] == h;
  }

  /** A prefix that the replacements remove, before a host and path, is removed by `normalizeUrl`. */
  lemma UrlWith(p: string, h: string)
    requires p != [] && !IsSpace(p[0]) && Lower(p) == p
    requires HostPath(h) && StripUrl(p + h) == h
    ensures NormalizeUrl(p + h) == h
  {
    PrefixedFixed(p, h);
    NormalizeUrlFixed(p + h);
  }

  /** The removed prefixes are lower case and start with a letter. */
  lemma SchemeShape(p: string)
    requires p == "https://" || p == "http://" || p == "www." || p == "https://www."
    ensures p != [] && !IsSpace(p[0]) && Lower(p) == p
  {
    assert p[0] == 'h' || p[0] == 'w';
    assert forall k | 0 <= k < |p| :: !IsUpper(p[k]) by {
      if p == "https://" {
      } else if p == "http://" {
      } else if p == "www." {
      } else {
      }
    }
    assert forall k | 0 <= k < |p| :: Lower(p)[k] == p[k];
  }

  lemma SchemeWith(p: string, h: string)
    requires p == "https://" || p == "http://" || p == "www." || p == "https://www."
    requires HostPath(h)
    ensures NormalizeUrl(p + h) == h
  {
    SchemeShape(p);
    StripUrlPrefixed(p, h);
    UrlWith(p, h);
  }

  /**
   * The spellings of one address that `normalizeUrl` equates: with or
   * without `http://`, `https://`, `www.` or a trailing slash.
   */
  lemma UrlSpellingsAgree(h: string)
    requires HostPath(h)
    ensures NormalizeUrl("https://" + h) == h
    ensures NormalizeUrl("http://" + h) == h
    ensures NormalizeUrl("www." + h) == h
    ensures NormalizeUrl("https://www." + h) == h
    ensures NormalizeUrl(h + "/") == h
  {
    SchemeWith("https://", h);
    SchemeWith("http://", h);
    SchemeWith("www.", h);
    SchemeWith("https://www.", h);
    SlashWith(h);
  }

  lemma SlashWith(h: string)
    requires HostPath(h)
    ensures NormalizeUrl(h + "/") == h
  {
    var t := h + "/";
    assert Lower(Trim(t)) == t by { SlashFixed(h); }
    assert StripUrl(t) == h by { StripUrlSlash(h); }
  }

  lemma SlashFixed(h: string)
    requires HostPath(h)
    ensures Lower(Trim(h + "/")) == h + "/"
  {
    var t := h + "/";
    assert t[0] == h[0] && t[|t| - 1] == '/';
    TrimmedFixed(t);
    LowerConcat(h, "/");
    assert Lower("/") == "/";
  }

  /** `firstField(offer, title) || offer.Website || ""`. */
  function TitleText(offer: Row): string {
    match FirstField(offer, TitleFields)
    case Some(t) => t
    case None => if "Website" in offer then offer["Website"] else []
  }

  /** `firstField(offer, fields) || ""`. */
  function FieldText(offer: Row, fields: seq<string>): string {
    FirstField(offer, fields).GetOr([])
  }

  /** The four parts of an offer's key: normalised title and description, normalised image and link. */
  datatype KeyParts = KeyParts(title: string, desc: string, image: string, link: string)

  function Parts(offer: Row): KeyParts {
    KeyParts(ToNorm(TitleText(offer)), ToNorm(FieldText(offer, DescFields)),
             NormalizeUrl(FieldText(offer, ImageFields)), NormalizeUrl(FieldText(offer, LinkFields)))
  }

  const Sep: string := "||"

  /** `${title}||${desc}||${image}||${link}`. */
  function Render(p: KeyParts): string {
    p.title + Sep + p.desc + Sep + p.image + Sep + p.link
  }

  /** `offerKey`. */
  function OfferKey(offer: Row): string {
    Render(Parts(offer))
  }

  /** The position of the first `|`, or the length when there is none. */
  function FirstBar(s: string): (r: nat)
    ensures r <= |s|
  {
    if s == [] || s[0] == '|' then 0 else 1 + FirstBar(s[1..])
  }

  lemma {:induction false} FirstBarAfter(a: string, r: string)
    requires '|' !in a
    ensures FirstBar(a + Sep + r) == |a|
  {
    if a != [] {
      assert (a + Sep + r)[1..] == a[1..] + Sep + r;
      FirstBarAfter(a[1..], r);
    }
  }

  /** Text before the first `||` is recovered from the joined text when it holds no `|`. */
  lemma SplitAtBars(a: string, r: string, b: string, t: string)
    requires '|' !in a && '|' !in b && a + Sep + r == b + Sep + t
    ensures a == b && r == t
  {
    var s := a + Sep + r;
    FirstBarAfter(a, r);
    FirstBarAfter(b, t);
    assert a == s[..|a|] && b == s[..|b|];
    assert r == s[|a| + 2..] && t == s[|b| + 2..];
  }

  lemma NormalizedNoBar(n: string)
    requires Normalized(n)
    ensures '|' !in n
  {
  }

  /** Keys built from parts whose title and description hold no `|` agree on those two parts. */
  lemma RenderTitleDesc(pa: KeyParts, pb: KeyParts)
    requires '|' !in pa.title && '|' !in pb.title && '|' !in pa.desc && '|' !in pb.desc
    requires Render(pa) == Render(pb)
    ensures pa.title == pb.title && pa.desc == pb.desc
  {
    var ra := pa.desc + Sep + pa.image + Sep + pa.link;
    var rb := pb.desc + Sep + pb.image + Sep + pb.link;
    assert Render(pa) == pa.title + Sep + ra;
    assert Render(pb) == pb.title + Sep + rb;
    SplitAtBars(pa.title, ra, pb.title, rb);
    assert ra == pa.desc + Sep + (pa.image + Sep + pa.link);
    assert rb == pb.desc + Sep + (pb.image + Sep + pb.link);
    SplitAtBars(pa.desc, pa.image + Sep + pa.link, pb.desc, pb.image + Sep + pb.link);
  }

  /**
   * Two offers with the same key have the same normalised title and
   * description: neither can hold the `||` separator.
   */
  lemma OfferKeyTitleDesc(a: Row, b: Row)
    requires OfferKey(a) == OfferKey(b)
    ensures Parts(a).title == Parts(b).title && Parts(a).desc == Parts(b).desc
  {
    ToNormNormalized(TitleText(a));
    ToNormNormalized(FieldText(a, DescFields));
    ToNormNormalized(TitleText(b));
    ToNormNormalized(FieldText(b, DescFields));
    NormalizedNoBar(Parts(a).title);
    NormalizedNoBar(Parts(b).title);
    NormalizedNoBar(Parts(a).desc);
    NormalizedNoBar(Parts(b).desc);
    RenderTitleDesc(Parts(a), Parts(b));
  }

  // ---------------------------------------------------------------------
  // Removing repeated offers (src/App.jsx:212-221)

  /** `{ offer, site, variantText }`. */
  datatype Wrapper = Wrapper(offer: Row, site: string, variantText: string)

  function WrapperKey(w: Wrapper): string {
    OfferKey(w.offer)
  }

  // The deduplication is stated over any element type and key function, so
  // that its proofs never need to look inside `offerKey`.

  /** The elements of `ws` whose key is neither in `seen` nor the key of an earlier element, in order. */
  function DedupBy<W>(ws: seq<W>, key: W -> string, seen: set<string>): seq<W>
    decreases |ws|
  {
    if ws == [] then []
    else if key(ws[0]) in seen then DedupBy(ws[1..], key, seen)
    else [ws[0]] + DedupBy(ws[1..], key, seen + {key(ws[0])})
  }

  /** The keys of a list, as a set. */
  function KeysBy<W>(ws: seq<W>, key: W -> string): set<string>
    decreases |ws|
  {
    if ws == [] then {} else KeysBy(ws[..|ws| - 1], key) + {key(ws[|ws| - 1])}
  }

  predicate DistinctBy<W>(ws: seq<W>, key: W -> string) {
    forall i, j | 0 <= i < j < |ws| :: key(ws[i]) != key(ws[j])
  }

  lemma {:induction false} KeysByConcat<W>(a: seq<W>, b: seq<W>, key: W -> string)
    ensures KeysBy(a + b, key) == KeysBy(a, key) + KeysBy(b, key)
    decreases |b|
  {
    if b == [] {
      assert a + b == a;
    } else {
      var l := a + b;
      assert l[..|l| - 1] == a + b[..|b| - 1];
      assert l[|l| - 1] == b[|b| - 1];
      KeysByConcat(a, b[..|b| - 1], key);
    }
  }

  lemma KeysBySingle<W>(w: W, key: W -> string)
    ensures KeysBy([w], key) == {key(w)}
  {
    assert [w][..0] == [];
  }

  /** Every element's key is among the keys. */
  lemma {:induction false} KeysByHas<W>(ws: seq<W>, i: nat, key: W -> string)
    requires i < |ws|
    ensures key(ws[i]) in KeysBy(ws, key)
    decreases |ws|
  {
    if i < |ws| - 1 {
      KeysByHas(ws[..|ws| - 1], i, key);
    }
  }

  /** Two lists without repeated keys, and without a key in common, concatenate to one. */
  lemma DistinctConcat<W>(a: seq<W>, b: seq<W>, key: W -> string)
    requires DistinctBy(a, key) && DistinctBy(b, key) && KeysBy(a, key) !! KeysBy(b, key)
    ensures DistinctBy(a + b, key)
  {
    var l := a + b;
    forall i, j | 0 <= i < j < |l|
      ensures key(l[i]) != key(l[j])
    {
      if i < |a| && j >= |a| {
        assert l[i] == a[i] && l[j] == b[j - |a|];
        KeysByHas(a, i, key);
        KeysByHas(b, j - |a|, key);
      } else if i >= |a| {
        assert l[i] == b[i - |a|] && l[j] == b[j - |a|];
      }
    }
  }

  /**
   * The kept elements: in input order, never two with one key, none with a
   * key already seen, and every key of the input not seen before is kept.
   */
  lemma {:induction false} DedupByFacts<W>(ws: seq<W>, key: W -> string, seen: set<string>)
    ensures var out := DedupBy(ws, key, seen);
      && IsSubseq(out, ws)
      && DistinctBy(out, key)
      && KeysBy(out, key) !! seen
      && KeysBy(out, key) + seen == KeysBy(ws, key) + seen
    decreases |ws|
  {
    if ws != [] {
      var k := key(ws[0]);
      KeysByConcat([ws[0]], ws[1..], key);
      KeysBySingle(ws[0], key);
      assert ws == [ws[0]] + ws[1..];
      if k in seen {
        DedupByFacts(ws[1..], key, seen);
      } else {
        var rest := DedupBy(ws[1..], key, seen + {k});
        DedupByFacts(ws[1..], key, seen + {k});
        KeysByConcat([ws[0]], rest, key);
        KeysBySingle(ws[0], key);
        DistinctConcat([ws[0]], rest, key);
        var out := [ws[0]] + rest;
        assert out[0] == ws[0] && out[1..] == rest;
      }
    }
  }

  /** One step of the thread: the next list's kept elements add exactly that list's unseen keys. */
  lemma ThreadStepKeys<W>(before: seq<W>, ws: seq<W>, d: seq<W>, key: W -> string)
    requires d == DedupBy(ws, key, KeysBy(before, key))
    ensures KeysBy(before + d, key) == KeysBy(before, key) + KeysBy(d, key)
    ensures KeysBy(before + d, key) == KeysBy(before, key) + KeysBy(ws, key)
  {
    DedupByFacts(ws, key, KeysBy(before, key));
    KeysByConcat(before, d, key);
  }

  /** One step of the thread: the next list's kept elements extend the shown ones without repeating a key. */
  lemma ThreadStepDistinct<W>(before: seq<W>, ws: seq<W>, d: seq<W>, key: W -> string)
    requires DistinctBy(before, key) && d == DedupBy(ws, key, KeysBy(before, key))
    ensures DistinctBy(before + d, key)
  {
    DedupByFacts(ws, key, KeysBy(before, key));
    DistinctConcat(before, d, key);
  }

  /** The offers of `ws` whose `offerKey` is not in `seen` nor that of an earlier offer. */
  function Dedup(ws: seq<Wrapper>, seen: set<string>): seq<Wrapper> {
    DedupBy(ws, WrapperKey, seen)
  }

  function KeySet(ws: seq<Wrapper>): set<string> {
    KeysBy(ws, WrapperKey)
  }

  predicate DistinctKeys(ws: seq<Wrapper>) {
    DistinctBy(ws, WrapperKey)
  }

  /**
   * `dedupWrappers` keeps offers in input order, never repeats an
   * `offerKey`, skips every key already seen, and keeps one offer for each
   * key of the input that was not.
   */
  lemma DedupFacts(ws: seq<Wrapper>, seen: set<string>)
    ensures var out := Dedup(ws, seen);
      && IsSubseq(out, ws)
      && DistinctKeys(out)
      && KeySet(out) !! seen
      && KeySet(out) + seen == KeySet(ws) + seen
  {
    DedupByFacts(ws, WrapperKey, seen);
  }

  /** A JavaScript `Set` of offer keys. */
  class SeenKeys {
    var keys: set<string>

    constructor ()
      ensures keys == {}
    {
      keys := {};
    }
  }

  /** One step of the deduplication, at position `i`. */
  lemma DedupAt<W>(ws: seq<W>, i: nat, key: W -> string, seen: set<string>)
    requires i < |ws|
    ensures DedupBy(ws[i..], key, seen) ==
      if key(ws[i]) in seen then DedupBy(ws[i + 1..], key, seen)
      else [ws[i]] + DedupBy(ws[i + 1..], key, seen + {key(ws[i])})
  {
    assert ws[i..][0] == ws[i] && ws[i..][1..] == ws[i + 1..];
  }

  /** Appending one element adds its key. */
  lemma KeysBySnoc<W>(ws: seq<W>, w: W, key: W -> string)
    ensures KeysBy(ws + [w], key) == KeysBy(ws, key) + {key(w)}
  {
    assert (ws + [w])[..|ws|] == ws;
  }

  /**
   * `dedupWrappers(arr, seen)`: the loop that skips seen keys, adding the
   * others to `seen`. The key is a parameter, `WrapperKey` (the offer's
   * `offerKey`) at every call, so that the loop's proof does not depend on
   * how keys are computed.
   */
  method DedupWrappers(arr: seq<Wrapper>, key: Wrapper -> string, seen: SeenKeys) returns (out: seq<Wrapper>)
    modifies seen
    ensures out == DedupBy(arr, key, old(seen.keys))
    ensures seen.keys == old(seen.keys) + KeysBy(out, key)
  {
    out := [];
    var i := 0;
    while i < |arr|
      invariant 0 <= i <= |arr|
      invariant out + DedupBy(arr[i..], key, seen.keys) == DedupBy(arr, key, old(seen.keys))
      invariant seen.keys == old(seen.keys) + KeysBy(out, key)
    {
      var w := arr[i];
      var k := key(w);
      if k in seen.keys {
        assert DedupBy(arr[i..], key, seen.keys) == DedupBy(arr[i + 1..], key, seen.keys) by {
          DedupAt(arr, i, key, seen.keys);
        }
        i := i + 1;
        continue;
      }
      assert DedupBy(arr[i..], key, seen.keys) == [w] + DedupBy(arr[i + 1..], key, seen.keys + {k}) by {
        DedupAt(arr, i, key, seen.keys);
      }
      assert KeysBy(out + [w], key) == KeysBy(out, key) + {k} by {
        KeysBySnoc(out, w, key);
      }
      seen.keys := seen.keys + {k};
      out := out + [w];
      i := i + 1;
    }
  }

  // ---------------------------------------------------------------------
  // Matching rows to the selection (src/App.jsx:606-649)

  /** Which list a file is read through: the permanent offers' single name, or a kind's list. */
  datatype Mode = Permanent | Listed(kind: Kind)

  /** The names one row mentions under `mode`. */
  function Mentions(row: Row, mode: Mode): seq<string> {
    match mode
    case Permanent =>
      (match FirstField(row, PermanentNameFields)
       case Some(nm) => [nm]
       case None => [])
    case Listed(kind) => SplitList(FirstField(row, ListFields(kind)))
  }

  /** Whether a listed name files under `baseNorm`. */
  function FilesUnder(baseNorm: string): string -> bool {
    raw => KeyOf(raw) == baseNorm
  }

  /** The variant a matching row contributes, or `None` if the row does not mention the selection. */
  function RowMatch(row: Row, mode: Mode, baseNorm: string): Option<string> {
    FirstVariant(Mentions(row, mode), baseNorm)
  }

  /** The variant of the first mention that files under `baseNorm`. */
  function FirstVariant(list: seq<string>, baseNorm: string): Option<string> {
    match FirstWhere(list, FilesUnder(baseNorm), 0)
    case Some(i) => Some(Variant(list[i]))
    case None => None
  }

  /**
   * A row matches exactly when one of its names files under the selection,
   * and then contributes the variant of the first such name.
   */
  lemma FirstVariantFacts(list: seq<string>, baseNorm: string)
    ensures FirstVariant(list, baseNorm).None? ==> forall i | 0 <= i < |list| :: KeyOf(list[i]) != baseNorm
    ensures forall i | 0 <= i < |list| && KeyOf(list[i]) == baseNorm && (forall j | 0 <= j < i :: KeyOf(list[j]) != baseNorm) ::
      FirstVariant(list, baseNorm) == Some(Variant(list[i]))
  {
    var t := FilesUnder(baseNorm);
    FirstWhereFacts(list, t, 0);
    forall i | 0 <= i < |list| && KeyOf(list[i]) == baseNorm && (forall j | 0 <= j < i :: KeyOf(list[j]) != baseNorm)
      ensures FirstVariant(list, baseNorm) == Some(Variant(list[i]))
    {
      assert t(list[i]);
      var k := FirstWhere(list, t, 0).value;
      assert k == i;
    }
  }

  function Picker(mode: Mode, baseNorm: string): Row -> Option<string> {
    row => RowMatch(row, mode, baseNorm)
  }

  /** The rows `pick` accepts, in order, each with the site and the variant `pick` returned. */
  function MatchesBy(offers: seq<Row>, pick: Row -> Option<string>, site: string): seq<Wrapper>
    decreases |offers|
  {
    if offers == [] then []
    else
      var rest := MatchesBy(offers[1..], pick, site);
      match pick(offers[0])
      case Some(v) => [Wrapper(offers[0], site, v)] + rest
      case None => rest
  }

  /** `matchesFor`'s result. */
  function Matches(offers: seq<Row>, mode: Mode, site: string, selected: Option<Entry>): seq<Wrapper> {
    if selected.None? then [] else MatchesBy(offers, Picker(mode, selected.value.baseNorm), site)
  }

  /** The rows of a list of offers, in order. */
  function OffersOf(ws: seq<Wrapper>): (r: seq<Row>)
    ensures |r| == |ws|
    ensures forall i | 0 <= i < |ws| :: r[i] == ws[i].offer
  {
    seq(|ws|, i requires 0 <= i < |ws| => ws[i].offer)
  }

  /** The kept rows are the input rows with some left out, in order. */
  lemma {:induction false} MatchesBySubseq(offers: seq<Row>, pick: Row -> Option<string>, site: string)
    ensures IsSubseq(OffersOf(MatchesBy(offers, pick, site)), offers)
    decreases |offers|
  {
    if offers != [] {
      MatchesBySubseq(offers[1..], pick, site);
      var rest := MatchesBy(offers[1..], pick, site);
      var out := MatchesBy(offers, pick, site);
      if pick(offers[0]).Some? {
        assert out == [Wrapper(offers[0], site, pick(offers[0]).value)] + rest;
        assert OffersOf(out)[0] == offers[0] && OffersOf(out)[1..] == OffersOf(rest);
      }
    }
  }

  /** A kept row carries the site and the variant `pick` gave it. */
  predicate Tagged(w: Wrapper, pick: Row -> Option<string>, site: string) {
    w.site == site && pick(w.offer) == Some(w.variantText)
  }

  lemma {:induction false} MatchesByTagged(offers: seq<Row>, pick: Row -> Option<string>, site: string)
    ensures forall w | w in MatchesBy(offers, pick, site) :: Tagged(w, pick, site)
    decreases |offers|
  {
    if offers != [] {
      MatchesByTagged(offers[1..], pick, site);
    }
  }

  /** Every row `pick` accepts is kept. */
  lemma {:induction false} MatchesByComplete(offers: seq<Row>, pick: Row -> Option<string>, site: string)
    ensures forall row | row in offers && pick(row).Some? :: row in OffersOf(MatchesBy(offers, pick, site))
    decreases |offers|
  {
    if offers != [] {
      MatchesByComplete(offers[1..], pick, site);
      var rest := MatchesBy(offers[1..], pick, site);
      var out := MatchesBy(offers, pick, site);
      forall row | row in offers && pick(row).Some?
        ensures row in OffersOf(out)
      {
        if row == offers[0] {
          assert out == [Wrapper(offers[0], site, pick(offers[0]).value)] + rest;
          assert OffersOf(out)[0] == row;
        } else {
          assert row in offers[1..];
          var j :| 0 <= j < |rest| && OffersOf(rest)[j] == row;
          if pick(offers[0]).Some? {
            assert out == [Wrapper(offers[0], site, pick(offers[0]).value)] + rest;
            assert OffersOf(out)[j + 1] == row;
          } else {
            assert OffersOf(out)[j] == row;
          }
        }
      }
    }
  }

  /**
   * `matchesFor` returns nothing without a selection; with one it keeps, in
   * order, exactly the rows that mention it, each tagged with the site and
   * with the variant of its first matching mention.
   */
  lemma MatchesFacts(offers: seq<Row>, mode: Mode, site: string, selected: Option<Entry>)
    ensures selected.None? ==> Matches(offers, mode, site, selected) == []
    ensures selected.Some? ==> IsSubseq(OffersOf(Matches(offers, mode, site, selected)), offers)
  {
    if selected.Some? {
      MatchesBySubseq(offers, Picker(mode, selected.value.baseNorm), site);
    }
  }

  /** Each row `matchesFor` keeps mentions the selection, and carries the site and the variant of its first matching mention. */
  lemma MatchesTagged(offers: seq<Row>, mode: Mode, site: string, e: Entry)
    ensures forall w | w in Matches(offers, mode, site, Some(e)) ::
      w.site == site && RowMatch(w.offer, mode, e.baseNorm) == Some(w.variantText)
  {
    var pick := Picker(mode, e.baseNorm);
    MatchesByTagged(offers, pick, site);
    forall w | w in Matches(offers, mode, site, Some(e))
      ensures w.site == site && RowMatch(w.offer, mode, e.baseNorm) == Some(w.variantText)
    {
      assert Tagged(w, pick, site);
    }
  }

  /** Every row that mentions the selection is kept. */
  lemma MatchesComplete(offers: seq<Row>, mode: Mode, site: string, e: Entry)
    ensures forall row | row in offers && RowMatch(row, mode, e.baseNorm).Some? :: row in OffersOf(Matches(offers, mode, site, Some(e)))
  {
    MatchesByComplete(offers, Picker(mode, e.baseNorm), site);
  }

  /** The inner loop of `matchesFor`: the first mention that files under `baseNorm`, and its variant. */
  method FindMention(list: seq<string>, baseNorm: string) returns (matched: bool, matchedVariant: string)
    ensures FirstVariant(list, baseNorm) == if matched then Some(matchedVariant) else None
  {
    matched := false;
    matchedVariant := [];
    var i := 0;
    while i < |list|
      invariant 0 <= i <= |list|
      invariant FirstWhere(list, FilesUnder(baseNorm), 0) == FirstWhere(list, FilesUnder(baseNorm), i)
    {
      var raw := list[i];
      var base := BrandCanonicalize(Base(raw));
      if ToNorm(base) == baseNorm {
        matched := true;
        var v := Variant(raw);
        if v != [] {
          matchedVariant := v;
        }
        break;
      }
      i := i + 1;
    }
  }

  /** One step of the matching, at row `r`. */
  lemma MatchesAt(offers: seq<Row>, r: nat, pick: Row -> Option<string>, site: string)
    requires r < |offers|
    ensures MatchesBy(offers[r..], pick, site) ==
      (if pick(offers[r]).Some? then [Wrapper(offers[r], site, pick(offers[r]).value)] else []) +
      MatchesBy(offers[r + 1..], pick, site)
  {
    assert offers[r..][0] == offers[r] && offers[r..][1..] == offers[r + 1..];
  }

  /** The match of every row, in order. */
  function Picks(offers: seq<Row>, mode: Mode, baseNorm: string): (r: seq<Option<string>>)
    ensures |r| == |offers|
    ensures forall j | 0 <= j < |offers| :: r[j] == RowMatch(offers[j], mode, baseNorm)
  {
    seq(|offers|, j requires 0 <= j < |offers| => RowMatch(offers[j], mode, baseNorm))
  }

  /** The rows paired with already computed matches, kept where there is one. */
  function Collect(offers: seq<Row>, picks: seq<Option<string>>, site: string): seq<Wrapper>
    requires |picks| == |offers|
    decreases |offers|
  {
    if offers == [] then []
    else (if picks[0].Some? then [Wrapper(offers[0], site, picks[0].value)] else []) + Collect(offers[1..], picks[1..], site)
  }

  /** Collecting the matches one row at a time gives `MatchesBy`. */
  lemma {:induction false} CollectMatches(offers: seq<Row>, picks: seq<Option<string>>, pick: Row -> Option<string>, site: string)
    requires |picks| == |offers|
    requires forall j | 0 <= j < |offers| :: picks[j] == pick(offers[j])
    ensures Collect(offers, picks, site) == MatchesBy(offers, pick, site)
    decreases |offers|
  {
    if offers != [] {
      CollectMatches(offers[1..], picks[1..], pick, site);
    }
  }

  lemma CollectAt(offers: seq<Row>, picks: seq<Option<string>>, r: nat, site: string)
    requires |picks| == |offers| && r < |offers|
    ensures Collect(offers[r..], picks[r..], site) ==
      (if picks[r].Some? then [Wrapper(offers[r], site, picks[r].value)] else []) + Collect(offers[r + 1..], picks[r + 1..], site)
  {
    assert offers[r..][0] == offers[r] && offers[r..][1..] == offers[r + 1..];
    assert picks[r..][0] == picks[r] && picks[r..][1..] == picks[r + 1..];
  }

  /** The body of `matchesFor`'s row loop: the row's names, searched by the inner loop. */
  method MatchRow(o: Row, mode: Mode, baseNorm: string) returns (matched: bool, matchedVariant: string)
    ensures RowMatch(o, mode, baseNorm) == if matched then Some(matchedVariant) else None
  {
    var list := Mentions(o, mode);
    matched, matchedVariant := FindMention(list, baseNorm);
  }

  /** Moving one row from the unread rows to the collected ones keeps the whole. */
  lemma CollectStep(out: seq<Wrapper>, offers: seq<Row>, picks: seq<Option<string>>, r: nat, site: string, whole: seq<Wrapper>)
    requires |picks| == |offers| && r < |offers|
    requires out + Collect(offers[r..], picks[r..], site) == whole
    ensures (if picks[r].Some? then out + [Wrapper(offers[r], site, picks[r].value)] else out)
      + Collect(offers[r + 1..], picks[r + 1..], site) == whole
  {
    CollectAt(offers, picks, r, site);
    var rest := Collect(offers[r + 1..], picks[r + 1..], site);
    if picks[r].Some? {
      var w := Wrapper(offers[r], site, picks[r].value);
      assert out + ([w] + rest) == (out + [w]) + rest;
    } else {
      assert [] + rest == rest;
    }
  }

  /** `matchesFor` as the source runs it: a loop over rows, each searched by the inner loop. */
  method MatchesFor(offers: seq<Row>, mode: Mode, site: string, selected: Option<Entry>) returns (out: seq<Wrapper>)
    ensures out == Matches(offers, mode, site, selected)
  {
    if selected.None? {
      return [];
    }
    var baseNorm := selected.value.baseNorm;
    out := MatchRows(offers, mode, baseNorm, site);
  }

  /** The row loop of `matchesFor`, once a selection is known. */
  method MatchRows(offers: seq<Row>, mode: Mode, baseNorm: string, site: string) returns (out: seq<Wrapper>)
    ensures out == MatchesBy(offers, Picker(mode, baseNorm), site)
  {
    ghost var picks := Picks(offers, mode, baseNorm);
    out := [];
    var r := 0;
    while r < |offers|
      invariant 0 <= r <= |offers|
      invariant out + Collect(offers[r..], picks[r..], site) == Collect(offers, picks, site)
    {
      var o := offers[r];
      var matched, matchedVariant := MatchRow(o, mode, baseNorm);
      assert picks[r] == if matched then Some(matchedVariant) else None;
      CollectStep(out, offers, picks, r, site, Collect(offers, picks, site));
      if matched {
        out := out + [Wrapper(o, site, matchedVariant)];
      }
      r := r + 1;
    }
    assert offers[|offers|..] == [] && picks[|offers|..] == [];
    CollectMatches(offers, picks, Picker(mode, baseNorm), site);
  }

  /** `selectedTypeForRetail`: the selection's kind, credit when there is none. */
  function RetailKind(selected: Option<Entry>): Kind {
    if selected.Some? then selected.value.kind else Credit
  }

  /** With no selection the grocery files are read through their credit lists; otherwise through the selected kind's. */
  lemma RetailKindOf(selected: Option<Entry>)
    ensures selected.None? ==> RetailKind(selected) == Credit
    ensures selected.Some? ==> RetailKind(selected) == selected.value.kind
  {
  }

  /** A chip click selects the entry `makeEntry` would build for the chip's name (src/App.jsx:596-604). */
  function ChipSelection(name: string, kind: Kind): (e: Entry)
    ensures e == MakeEntry(name, kind)
  {
    var display := BrandCanonicalize(Base(name));
    Entry(kind, display, ToNorm(display))
  }

  // ---------------------------------------------------------------------
  // The offers shown (src/App.jsx:651-689)

  /** The offers shown per source. */
  datatype Shown = Shown(permanent: seq<Wrapper>, blinkit: seq<Wrapper>, swiggy: seq<Wrapper>,
                         zepto: seq<Wrapper>, bigbasket: seq<Wrapper>)
  {
    function All(): seq<Wrapper> {
      permanent + blinkit + swiggy + zepto + bigbasket
    }
  }

  /** The matches of each source before deduplication. */
  function Found(src: Sources, selected: Option<Entry>): Shown {
    var k := Listed(RetailKind(selected));
    Shown(Matches(src.permanent, Permanent, "Permanent", selected),
          Matches(src.blinkit, k, "Blinkit", selected),
          Matches(src.swiggy, k, "Swiggy Instamart", selected),
          Matches(src.zepto, k, "Zepto", selected),
          Matches(src.bigbasket, k, "BigBasket", selected))
  }

  /** Deduplication threaded through the sources in order; Permanent is taken for credit only. */
  function DedupAll(found: Shown, credit: bool): Shown {
    var p := if credit then Dedup(found.permanent, {}) else [];
    var s0 := KeySet(p);
    var b := Dedup(found.blinkit, s0);
    var s1 := s0 + KeySet(b);
    var w := Dedup(found.swiggy, s1);
    var s2 := s1 + KeySet(w);
    var z := Dedup(found.zepto, s2);
    var s3 := s2 + KeySet(z);
    var g := Dedup(found.bigbasket, s3);
    Shown(p, b, w, z, g)
  }

  predicate IsCredit(selected: Option<Entry>) {
    selected.Some? && selected.value.kind == Credit
  }

  function Resolve(src: Sources, selected: Option<Entry>): Shown {
    DedupAll(Found(src, selected), IsCredit(selected))
  }

  /** `hasAny`. */
  predicate HasAny(s: Shown) {
    s.permanent != [] || s.blinkit != [] || s.swiggy != [] || s.zepto != [] || s.bigbasket != []
  }

  /** The collection as the source runs it: every source's matches, then one deduplication pass. */
  method ResolveOffers(src: Sources, selected: Option<Entry>) returns (shown: Shown, hasAny: bool)
    ensures shown == Resolve(src, selected)
    ensures hasAny == HasAny(shown)
  {
    var kind := RetailKind(selected);
    var wPermanent := MatchesFor(src.permanent, Permanent, "Permanent", selected);
    var wBlinkit := MatchesFor(src.blinkit, Listed(kind), "Blinkit", selected);
    var wSwiggy := MatchesFor(src.swiggy, Listed(kind), "Swiggy Instamart", selected);
    var wZepto := MatchesFor(src.zepto, Listed(kind), "Zepto", selected);
    var wBigbasket := MatchesFor(src.bigbasket, Listed(kind), "BigBasket", selected);
    var found := Shown(wPermanent, wBlinkit, wSwiggy, wZepto, wBigbasket);
    assert found == Found(src, selected);
    shown := DedupSources(found, selected.Some? && selected.value.kind == Credit);
    hasAny := shown.permanent != [] || shown.blinkit != [] || shown.swiggy != [] || shown.zepto != [] || shown.bigbasket != [];
  }

  /** One `seen` set, updated in place by each source's `dedupWrappers` call in order. */
  method DedupSources(found: Shown, credit: bool) returns (shown: Shown)
    ensures shown == DedupAll(found, credit)
  {
    var seen := new SeenKeys();
    var dPermanent := [];
    if credit {
      dPermanent := DedupWrappers(found.permanent, WrapperKey, seen);
    }
    assert seen.keys == KeySet(dPermanent);
    var dBlinkit := DedupWrappers(found.blinkit, WrapperKey, seen);
    var dSwiggy := DedupWrappers(found.swiggy, WrapperKey, seen);
    var dZepto := DedupWrappers(found.zepto, WrapperKey, seen);
    var dBigbasket := DedupWrappers(found.bigbasket, WrapperKey, seen);
    shown := Shown(dPermanent, dBlinkit, dSwiggy, dZepto, dBigbasket);
  }

  /** Permanent offers are shown only for a credit card, and nothing is shown before a selection. */
  lemma ResolveGates(src: Sources, selected: Option<Entry>)
    ensures !IsCredit(selected) ==> Resolve(src, selected).permanent == []
    ensures selected.None? ==> !HasAny(Resolve(src, selected))
  {
  }

  /**
   * Across the sources no offer key is shown twice, and the keys shown are
   * exactly those of the matches taken (Permanent's only when `credit`).
   */
  lemma DedupAllFacts(found: Shown, credit: bool)
    ensures DistinctKeys(DedupAll(found, credit).All())
    ensures KeySet(DedupAll(found, credit).All()) ==
      (if credit then KeySet(found.permanent) else {}) +
      KeySet(found.blinkit) + KeySet(found.swiggy) + KeySet(found.zepto) + KeySet(found.bigbasket)
  {
    var r := DedupAll(found, credit);
    assert Threaded(found.permanent, found.blinkit, found.swiggy, found.zepto, found.bigbasket,
                    r.permanent, r.blinkit, r.swiggy, r.zepto, r.bigbasket, WrapperKey, credit);
    ThreadKeys(found.permanent, found.blinkit, found.swiggy, found.zepto, found.bigbasket,
               r.permanent, r.blinkit, r.swiggy, r.zepto, r.bigbasket, WrapperKey, credit);
    ThreadDistinct(found.permanent, found.blinkit, found.swiggy, found.zepto, found.bigbasket,
                   r.permanent, r.blinkit, r.swiggy, r.zepto, r.bigbasket, WrapperKey, credit);
  }

  /** `p` to `g` are the five lists `fp` to `fg` kept one after the other, as `DedupAll` keeps them, for any key. */
  ghost predicate Threaded<W>(fp: seq<W>, fb: seq<W>, fw: seq<W>, fz: seq<W>, fg: seq<W>,
                        p: seq<W>, b: seq<W>, w: seq<W>, z: seq<W>, g: seq<W>, key: W -> string, credit: bool)
  {
    && p == (if credit then DedupBy(fp, key, {}) else [])
    && b == DedupBy(fb, key, KeysBy(p, key))
    && w == DedupBy(fw, key, KeysBy(p, key) + KeysBy(b, key))
    && z == DedupBy(fz, key, KeysBy(p, key) + KeysBy(b, key) + KeysBy(w, key))
    && g == DedupBy(fg, key, KeysBy(p, key) + KeysBy(b, key) + KeysBy(w, key) + KeysBy(z, key))
  }

  /** The kept lists show exactly the keys of the lists taken. */
  lemma ThreadKeys<W>(fp: seq<W>, fb: seq<W>, fw: seq<W>, fz: seq<W>, fg: seq<W>,
                      p: seq<W>, b: seq<W>, w: seq<W>, z: seq<W>, g: seq<W>, key: W -> string, credit: bool)
    requires Threaded(fp, fb, fw, fz, fg, p, b, w, z, g, key, credit)
    ensures KeysBy(p + b + w + z + g, key) ==
      (if credit then KeysBy(fp, key) else {}) + KeysBy(fb, key) + KeysBy(fw, key) + KeysBy(fz, key) + KeysBy(fg, key)
  {
    var kp := if credit then KeysBy(fp, key) else {};
    assert KeysBy(p, key) == kp by {
      if credit {
        DedupByFacts(fp, key, {});
        assert KeysBy(p, key) + {} == KeysBy(p, key);
        assert KeysBy(fp, key) + {} == KeysBy(fp, key);
      }
    }
    var l1, l2, l3 := p + b, p + b + w, p + b + w + z;
    assert KeysBy(l1, key) == KeysBy(p, key) + KeysBy(b, key) == kp + KeysBy(fb, key) by {
      ThreadStepKeys(p, fb, b, key);
    }
    assert KeysBy(l2, key) == KeysBy(l1, key) + KeysBy(w, key) == KeysBy(l1, key) + KeysBy(fw, key) by {
      ThreadStepKeys(l1, fw, w, key);
    }
    assert KeysBy(l3, key) == KeysBy(l2, key) + KeysBy(z, key) == KeysBy(l2, key) + KeysBy(fz, key) by {
      ThreadStepKeys(l2, fz, z, key);
    }
    assert KeysBy(l3 + g, key) == KeysBy(l3, key) + KeysBy(fg, key) by {
      ThreadStepKeys(l3, fg, g, key);
    }
    UnionChain(kp, KeysBy(fb, key), KeysBy(fw, key), KeysBy(fz, key), KeysBy(fg, key),
               KeysBy(l1, key), KeysBy(l2, key), KeysBy(l3, key), KeysBy(l3 + g, key));
  }

  lemma UnionChain(a: set<string>, b: set<string>, c: set<string>, d: set<string>, e: set<string>,
                   x1: set<string>, x2: set<string>, x3: set<string>, x4: set<string>)
    requires x1 == a + b && x2 == x1 + c && x3 == x2 + d && x4 == x3 + e
    ensures x4 == a + b + c + d + e
  {
  }

  /** No key is kept twice across the five lists. */
  lemma ThreadDistinct<W>(fp: seq<W>, fb: seq<W>, fw: seq<W>, fz: seq<W>, fg: seq<W>,
                          p: seq<W>, b: seq<W>, w: seq<W>, z: seq<W>, g: seq<W>, key: W -> string, credit: bool)
    requires Threaded(fp, fb, fw, fz, fg, p, b, w, z, g, key, credit)
    ensures DistinctBy(p + b + w + z + g, key)
  {
    assert DistinctBy(p, key) by {
      if credit {
        DedupByFacts(fp, key, {});
      }
    }
    var l1, l2, l3 := p + b, p + b + w, p + b + w + z;
    assert KeysBy(l1, key) == KeysBy(p, key) + KeysBy(b, key) by { ThreadStepKeys(p, fb, b, key); }
    assert KeysBy(l2, key) == KeysBy(l1, key) + KeysBy(w, key) by { ThreadStepKeys(l1, fw, w, key); }
    assert DistinctBy(l1, key) by { ThreadStepDistinct(p, fb, b, key); }
    assert DistinctBy(l2, key) by { ThreadStepDistinct(l1, fw, w, key); }
    assert DistinctBy(l3, key) by { ThreadStepDistinct(l2, fz, z, key); }
    assert KeysBy(l3, key) == KeysBy(l2, key) + KeysBy(z, key) by { ThreadStepKeys(l2, fz, z, key); }
    ThreadStepDistinct(l3, fg, g, key);
  }

  /** The offers shown for a selection: no offer key twice, and every matching key shown once. */
  lemma ResolveDistinct(src: Sources, selected: Option<Entry>)
    ensures DistinctKeys(Resolve(src, selected).All())
    ensures var f := Found(src, selected);
      KeySet(Resolve(src, selected).All()) ==
        (if IsCredit(selected) then KeySet(f.permanent) else {}) +
        KeySet(f.blinkit) + KeySet(f.swiggy) + KeySet(f.zepto) + KeySet(f.bigbasket)
  {
    DedupAllFacts(Found(src, selected), IsCredit(selected));
  }

  // ---------------------------------------------------------------------
  // Images (src/App.jsx:224-257)

  /** The placeholder texts `isUsableImage` rejects, compared case-insensitively. */
  const Placeholders: set<string> := {"na", "n/a", "null", "undefined", "-", "image unavailable"}

  /** `isUsableImage`: a present, non-blank value that is not a placeholder. */
  predicate IsUsableImage(val: Option<string>) {
    val.Some? && val.value != [] && Trim(val.value) != [] && Lower(Trim(val.value)) !in Placeholders
  }

  /** The `i`-flagged whole-string test `^p$`: `t` spells `p` up to ASCII case. */
  predicate SpellsIgnoringCase(t: string, p: string) {
    |t| == |p| && forall k | 0 <= k < |t| :: LowerChar(t[k]) == p[k]
  }

  /**
   * A present value is usable exactly when, trimmed, it is non-empty and
   * spells none of the placeholders in any mix of case.
   */
  lemma UsableImageIff(s: string)
    ensures IsUsableImage(Some(s)) <==>
      Trim(s) != [] && forall p | p in Placeholders :: !SpellsIgnoringCase(Trim(s), p)
  {
    var t := Trim(s);
    forall p | p in Placeholders
      ensures Lower(t) == p <==> SpellsIgnoringCase(t, p)
    {
      if SpellsIgnoringCase(t, p) {
        assert Lower(t) == p;
      }
    }
  }

  /** Surrounding white space does not change whether a value is usable. */
  lemma UsableImageTrim(s: string)
    ensures IsUsableImage(Some(s)) <==> IsUsableImage(Some(Trim(s)))
  {
    TrimIdempotent(s);
  }

  /** The fallback-logo table: site name and logo address, in declaration order. */
  type LogoTable = seq<(string, string)>

  /** Either normalised name contains the other. */
  predicate SiteMatches(key: string, siteKey: string) {
    var n := ToNorm(siteKey);
    key == n || Contains(key, n) || Contains(n, key)
  }

  /** The first position, from `from`, whose element passes `test`. */
  function FirstWhere<T>(s: seq<T>, test: T -> bool, from: nat): (r: Option<nat>)
    requires from <= |s|
    ensures r.Some? ==> from <= r.value < |s|
    decreases |s| - from
  {
    if from == |s| then None
    else if test(s[from]) then Some(from)
    else FirstWhere(s, test, from + 1)
  }

  /** `FirstWhere` finds the first passing element, and finds none only when none passes. */
  lemma {:induction false} FirstWhereFacts<T>(s: seq<T>, test: T -> bool, from: nat)
    requires from <= |s|
    ensures var r := FirstWhere(s, test, from);
      && (r.Some? ==> test(s[r.value]) && forall j | from <= j < r.value :: !test(s[j]))
      && (r.None? ==> forall j | from <= j < |s| :: !test(s[j]))
    decreases |s| - from
  {
    if from < |s| && !test(s[from]) {
      FirstWhereFacts(s, test, from + 1);
    }
  }

  function SiteTest(key: string): ((string, string)) -> bool {
    (e: (string, string)) => SiteMatches(key, e.0)
  }

  /** `getFallbackImage`'s result: the logo of the first table site matching the normalised site name, or `""`. */
  function FallbackImage(site: string, table: LogoTable): string {
    var key := ToNorm(site);
    if key == [] then []
    else match FirstWhere(table, SiteTest(key), 0)
      case Some(i) => table[i].1
      case None => []
  }

  /**
   * A blank site has no fallback; otherwise the fallback is the logo of a
   * matching table site with no matching site before it, and there is none
   * only when no site matches.
   */
  lemma FallbackImageFacts(site: string, table: LogoTable)
    ensures ToNorm(site) == [] ==> FallbackImage(site, table) == []
    ensures ToNorm(site) != [] ==>
      (exists i | 0 <= i < |table| :: SiteMatches(ToNorm(site), table[i].0)) ||
      FallbackImage(site, table) == []
    ensures ToNorm(site) != [] && (exists i | 0 <= i < |table| :: SiteMatches(ToNorm(site), table[i].0)) ==>
      exists i | 0 <= i < |table| ::
        && SiteMatches(ToNorm(site), table[i].0)
        && (forall j | 0 <= j < i :: !SiteMatches(ToNorm(site), table[j].0))
        && FallbackImage(site, table) == table[i].1
  {
    var key := ToNorm(site);
    if key != [] {
      FirstWhereFacts(table, SiteTest(key), 0);
    }
  }

  /** `getFallbackImage`: the loop over the table that returns at the first matching site. */
  method GetFallbackImage(site: string, table: LogoTable) returns (url: string)
    ensures url == FallbackImage(site, table)
  {
    var key := ToNorm(site);
    if key == [] {
      return [];
    }
    var i := 0;
    while i < |table|
      invariant 0 <= i <= |table|
      invariant FirstWhere(table, SiteTest(key), 0) == FirstWhere(table, SiteTest(key), i)
    {
      var (siteKey, logo) := table[i];
      var normSiteKey := ToNorm(siteKey);
      if key == normSiteKey || Contains(key, normSiteKey) || Contains(normSiteKey, key) {
        return logo;
      }
      i := i + 1;
    }
    return [];
  }

  /** `resolveImage`'s result: the image source and whether it is the fallback. */
  datatype ImageChoice = ImageChoice(src: Option<string>, usingFallback: bool)

  /** `resolveImage`. */
  function ResolveImage(site: string, candidate: Option<string>, table: LogoTable): (r: ImageChoice)
    ensures IsUsableImage(candidate) ==> r == ImageChoice(candidate, false)
    ensures r.usingFallback <==> !IsUsableImage(candidate) && FallbackImage(site, table) != []
    ensures r.usingFallback ==> r.src == Some(FallbackImage(site, table))
    ensures !r.usingFallback ==> r.src == candidate
  {
    var fallback := FallbackImage(site, table);
    var shouldFallback := !IsUsableImage(candidate) && fallback != [];
    ImageChoice(if shouldFallback then Some(fallback) else candidate, shouldFallback)
  }
}
