/**
 * The suggestion list behind the search box (`onChangeQuery`,
 * src/App.jsx:475-586): each kind's entries are scored against the query,
 * filtered, ranked and capped; a "select" query pulls Select cards to the
 * top of each kind; a payment word in the query decides which kind's
 * section comes first. The React setters are the two outputs of
 * `Suggest`: the section list and the `noMatches` flag.
 */
module Ranking {
  import opened Text
  import opened Similarity
  import opened Ordering
  import opened Catalog

  /** `MAX_SUGGESTIONS` (src/App.jsx:21). */
  const MaxSuggestions: nat := 50

  /** `{ it, s, inc, fuzzy }`: an entry with its boosted score and its two match flags. */
  datatype Scored = Scored(entry: Entry, score: real, inc: bool, fuzzy: bool)

  /**
   * Scoring one entry against the trimmed query: the base score, plus 2.0
   * for a raw case-insensitive substring hit, plus 1.5 for a fuzzy hit.
   * A hit of either kind outscores any entry with neither.
   */
  function ScoreEntry(trimmed: string, it: Entry): (r: Scored)
    ensures r.entry == it && r.score >= 0.0
    ensures r.inc == Contains(Lower(it.display), Lower(trimmed))
    ensures r.fuzzy == IsFuzzyNameMatch(trimmed, it.display)
    ensures r.inc ==> r.score >= 2.0
    ensures r.fuzzy ==> r.score >= 1.5
    ensures !r.inc && !r.fuzzy ==> r.score <= 1.0
  {
    var baseScore := ScoreCandidate(trimmed, it.display);
    var inc := Contains(Lower(it.display), Lower(trimmed));
    var fuzzy := IsFuzzyNameMatch(trimmed, it.display);
    var s := baseScore + (if inc then 2.0 else 0.0) + (if fuzzy then 1.5 else 0.0);
    Scored(it, s, inc, fuzzy)
  }

  /** The filter: a substring hit, a fuzzy hit, or a boosted score above 0.3. */
  predicate Keep(r: Scored) {
    r.inc || r.fuzzy || r.score > 0.3
  }

  predicate IsHit(r: Scored) {
    r.inc || r.fuzzy
  }

  function ScoreAll(trimmed: string, arr: seq<Entry>): (r: seq<Scored>)
    ensures |r| == |arr|
    ensures forall i | 0 <= i < |r| :: r[i] == ScoreEntry(trimmed, arr[i])
  {
    seq(|arr|, i requires 0 <= i < |arr| => ScoreEntry(trimmed, arr[i]))
  }

  /** `.filter(({ s, inc, fuzzy }) => inc || fuzzy || s > 0.3)`: the survivors, in order. */
  function Survivors(ss: seq<Scored>): (r: seq<Scored>)
    ensures multiset(r) <= multiset(ss)
    ensures forall i | 0 <= i < |r| :: Keep(r[i])
  {
    if ss == [] then []
    else
      assert ss == [ss[0]] + ss[1..];
      (if Keep(ss[0]) then [ss[0]] else []) + Survivors(ss[1..])
  }

  /** Every entry that passes the filter survives it. */
  lemma {:induction false} SurvivorsComplete(ss: seq<Scored>, x: Scored)
    requires x in ss && Keep(x)
    ensures x in Survivors(ss)
  {
    if ss[0] != x {
      SurvivorsComplete(ss[1..], x);
    }
  }

  // ---------------------------------------------------------------------
  // The ranking order

  /**
   * `b.s - a.s || a.it.display.localeCompare(b.it.display)` is not positive:
   * a higher score first, then the smaller display.
   */
  predicate RankLe(a: Scored, b: Scored) {
    a.score > b.score || (a.score == b.score && StrLe(a.entry.display, b.entry.display))
  }

  lemma RankLeTotal(a: Scored, b: Scored)
    ensures RankLe(a, b) || RankLe(b, a)
  {
    StrLeTotal(a.entry.display, b.entry.display);
  }

  lemma RankLeTransitive(a: Scored, b: Scored, c: Scored)
    requires RankLe(a, b) && RankLe(b, c)
    ensures RankLe(a, c)
  {
    if a.score == b.score && b.score == c.score {
      StrLeTransitive(a.entry.display, b.entry.display, c.entry.display);
    }
  }

  predicate Ranked(s: seq<Scored>) {
    forall i, j | 0 <= i < j < |s| :: RankLe(s[i], s[j])
  }

  /** `x` placed before the first element it does not follow; ties keep `x` first, as a stable sort does. */
  function InsertRanked(x: Scored, s: seq<Scored>): (r: seq<Scored>)
    ensures multiset(r) == multiset(s) + multiset{x}
  {
    if s == [] then [x]
    else if RankLe(x, s[0]) then [x] + s
    else assert s == [s[0]] + s[1..]; [s[0]] + InsertRanked(x, s[1..])
  }

  lemma {:induction false} InsertRankedSorted(x: Scored, s: seq<Scored>)
    requires Ranked(s)
    ensures Ranked(InsertRanked(x, s))
  {
    if s != [] {
      if RankLe(x, s[0]) {
        forall j | 0 < j < |s|
          ensures RankLe(x, s[j])
        {
          RankLeTransitive(x, s[0], s[j]);
        }
      } else {
        RankLeTotal(x, s[0]);
        InsertRankedSorted(x, s[1..]);
        var t := InsertRanked(x, s[1..]);
        forall j | 0 <= j < |t|
          ensures RankLe(s[0], t[j])
        {
          assert t[j] in multiset(t);
          if t[j] != x {
            assert t[j] in multiset(s[1..]);
            var k :| 0 <= k < |s[1..]| && s[1..][k] == t[j];
            assert s[k + 1] == t[j];
          }
        }
      }
    }
  }

  /** `.sort(...)`, as a stable insertion sort. */
  function SortRanked(s: seq<Scored>): (r: seq<Scored>)
    ensures multiset(r) == multiset(s)
  {
    if s == [] then []
    else assert s == [s[0]] + s[1..]; InsertRanked(s[0], SortRanked(s[1..]))
  }

  lemma {:induction false} SortRankedSorted(s: seq<Scored>)
    ensures Ranked(SortRanked(s))
  {
    if s != [] {
      SortRankedSorted(s[1..]);
      InsertRankedSorted(s[0], SortRanked(s[1..]));
    }
  }

  /** `.slice(0, MAX_SUGGESTIONS)`. */
  function Cap(s: seq<Scored>): (r: seq<Scored>)
    ensures r <= s && |r| == if |s| <= MaxSuggestions then |s| else MaxSuggestions
  {
    if |s| <= MaxSuggestions then s else s[..MaxSuggestions]
  }

  /** The ranked, capped survivors of one kind. */
  function Top(trimmed: string, arr: seq<Entry>): seq<Scored> {
    Cap(SortRanked(Survivors(ScoreAll(trimmed, arr))))
  }

  /** `scored(arr)`: the entries of the ranked, capped survivors. */
  function Suggested(trimmed: string, arr: seq<Entry>): (r: seq<Entry>)
    ensures |r| == |Top(trimmed, arr)|
    ensures forall i | 0 <= i < |r| :: r[i] == Top(trimmed, arr)[i].entry
  {
    var top := Top(trimmed, arr);
    seq(|top|, i requires 0 <= i < |top| => top[i].entry)
  }

  /** A ranked list cut after `k` elements: nothing after the cut ranks above anything before it. */
  lemma {:induction false} CutFacts(sorted: seq<Scored>, k: nat)
    requires Ranked(sorted) && k <= |sorted|
    ensures multiset(sorted) == multiset(sorted[..k]) + multiset(sorted[k..])
    ensures forall x, y | x in multiset(sorted[..k]) && y in multiset(sorted[k..]) :: RankLe(x, y)
  {
    assert sorted == sorted[..k] + sorted[k..];
    forall x, y | x in multiset(sorted[..k]) && y in multiset(sorted[k..])
      ensures RankLe(x, y)
    {
      var i :| 0 <= i < k && sorted[..k][i] == x;
      var j :| 0 <= j < |sorted| - k && sorted[k..][j] == y;
      assert sorted[k + j] == y && sorted[i] == x;
    }
  }

  /**
   * The survivors ranked and capped: at most 50, in ranking order; all of
   * them when there are at most 50; otherwise none left out ranks above one
   * kept.
   */
  lemma CapFacts(all: seq<Scored>)
    ensures var top := Cap(SortRanked(all));
      && Ranked(top)
      && |top| == (if |all| <= MaxSuggestions then |all| else MaxSuggestions)
      && multiset(top) <= multiset(all)
      && (|all| <= MaxSuggestions ==> multiset(top) == multiset(all))
      && (forall x, y | x in multiset(top) && y in multiset(all) - multiset(top) :: RankLe(x, y))
  {
    var sorted := SortRanked(all);
    SortRankedSorted(all);
    var top := Cap(sorted);
    assert |sorted| == |all| by {
      assert |multiset(sorted)| == |multiset(all)|;
    }
    CutFacts(sorted, |top|);
    assert top == sorted[..|top|];
  }

  /** The score bounds `ScoreEntry` guarantees, as a property of a scored record. */
  predicate Consistent(r: Scored) {
    && (r.inc ==> r.score >= 2.0)
    && (r.fuzzy ==> r.score >= 1.5)
    && (!r.inc && !r.fuzzy ==> r.score <= 1.0)
  }

  /** The top list for one kind and the trimmed query. */
  lemma TopFacts(trimmed: string, arr: seq<Entry>)
    ensures var top := Top(trimmed, arr);
      var all := Survivors(ScoreAll(trimmed, arr));
      && Ranked(top)
      && |top| == (if |all| <= MaxSuggestions then |all| else MaxSuggestions)
      && (|all| <= MaxSuggestions ==> multiset(top) == multiset(all))
      && (forall x, y | x in multiset(top) && y in multiset(all) - multiset(top) :: RankLe(x, y))
      && (forall x | x in top :: x.entry in arr && x == ScoreEntry(trimmed, x.entry) && Keep(x) && Consistent(x))
  {
    var ss := ScoreAll(trimmed, arr);
    var all := Survivors(ss);
    CapFacts(all);
    var top := Top(trimmed, arr);
    forall x | x in top
      ensures x.entry in arr && x == ScoreEntry(trimmed, x.entry) && Keep(x) && Consistent(x)
    {
      assert x in multiset(top);
      assert x in multiset(ss);
      var j :| 0 <= j < |arr| && ss[j] == x;
    }
  }

  /** An entry that passes the filter is listed when at most 50 do. */
  lemma TopComplete(trimmed: string, arr: seq<Entry>, i: nat)
    requires i < |arr| && Keep(ScoreEntry(trimmed, arr[i]))
    requires |Survivors(ScoreAll(trimmed, arr))| <= MaxSuggestions
    ensures arr[i] in Suggested(trimmed, arr)
  {
    var x := ScoreEntry(trimmed, arr[i]);
    var ss := ScoreAll(trimmed, arr);
    assert ss[i] == x;
    SurvivorsComplete(ss, x);
    TopFacts(trimmed, arr);
    var top := Top(trimmed, arr);
    assert x in multiset(top);
    var k :| 0 <= k < |top| && top[k] == x;
    assert Suggested(trimmed, arr)[k] == arr[i];
  }

  /** Substring and fuzzy hits are listed before entries kept only for their score. */
  lemma HitsFirst(trimmed: string, arr: seq<Entry>, i: nat, j: nat)
    requires i < j < |Top(trimmed, arr)|
    requires IsHit(Top(trimmed, arr)[j])
    ensures IsHit(Top(trimmed, arr)[i])
  {
    TopFacts(trimmed, arr);
    var top := Top(trimmed, arr);
    assert RankLe(top[i], top[j]);
    assert Consistent(top[i]) && Consistent(top[j]);
  }

  // ---------------------------------------------------------------------
  // "select" intent

  const SelectWord: string := "select"

  /** A query word that is `select` or close to it (similarity at least 0.7). */
  predicate SelectLike(w: string) {
    w == SelectWord || (|w| >= 3 && Sim(w, SelectWord) >= 0.7)
  }

  /** `hasSelectWord`. */
  predicate HasSelectWord(qNorm: string) {
    exists i | 0 <= i < |Words(qNorm)| :: SelectLike(Words(qNorm)[i])
  }

  /** `isSelectIntent`. */
  predicate SelectIntent(qNorm: string) {
    Contains(qNorm, "select credit card") || Contains(qNorm, "select card") || HasSelectWord(qNorm)
  }

  /** A one-letter slip in `select` (`selct`, `slect`, `selec`, ...) still reads as `select`. */
  lemma SelectTypoIsSelectLike(k: nat)
    requires k < |SelectWord|
    requires Normalized(SelectWord[..k] + SelectWord[k + 1..])
    ensures SelectLike(SelectWord[..k] + SelectWord[k + 1..])
  {
    assert Normalized(SelectWord);
    OneDeletionIsFuzzy(SelectWord, k);
  }

  /** The normalised name of a Select card contains `select`. */
  predicate IsSelectCard(e: Entry) {
    Contains(ToNorm(e.display), SelectWord)
  }

  /** The elements whose test comes out as `want`, in order. */
  function Part<T>(s: seq<T>, test: T -> bool, want: bool): seq<T> {
    if s == [] then []
    else
      var last := s[|s| - 1];
      Part(s[..|s| - 1], test, want) + (if test(last) == want then [last] else [])
  }

  lemma LastSplit<T>(s: seq<T>)
    requires s != []
    ensures s == s[..|s| - 1] + [s[|s| - 1]]
  {
  }

  /** Reading one more element adds it to the part its test picks. */
  lemma PartStep<T>(s: seq<T>, i: nat, test: T -> bool, want: bool)
    requires i < |s|
    ensures Part(s[..i + 1], test, want) == Part(s[..i], test, want) + (if test(s[i]) == want then [s[i]] else [])
  {
    assert s[..i + 1][..i] == s[..i];
  }

  lemma {:induction false} PartCounts<T>(s: seq<T>, test: T -> bool)
    ensures multiset(Part(s, test, true)) + multiset(Part(s, test, false)) == multiset(s)
  {
    if s != [] {
      var init, last := s[..|s| - 1], s[|s| - 1];
      PartCounts(init, test);
      LastSplit(s);
      assert multiset(s) == multiset(init) + multiset{last};
    }
  }

  lemma {:induction false} PartTest<T>(s: seq<T>, test: T -> bool, want: bool)
    ensures forall i | 0 <= i < |Part(s, test, want)| :: test(Part(s, test, want)[i]) == want
  {
    if s != [] {
      PartTest(s[..|s| - 1], test, want);
    }
  }

  /** The two parts, one after the other: no element lost or added, the first part's all first. */
  lemma Partition<T>(s: seq<T>, test: T -> bool)
    ensures var r := Part(s, test, true) + Part(s, test, false);
      && multiset(r) == multiset(s)
      && (forall i | 0 <= i < |Part(s, test, true)| :: test(r[i]))
      && (forall i | |Part(s, test, true)| <= i < |r| :: !test(r[i]))
  {
    PartCounts(s, test);
    PartTest(s, test, true);
    PartTest(s, test, false);
    var t, f := Part(s, test, true), Part(s, test, false);
    forall i | |t| <= i < |t + f|
      ensures !test((t + f)[i])
    {
      assert (t + f)[i] == f[i - |t|];
    }
  }

  /** `reorderBySelect`'s result: `selectCards` then `others`, each in its original order. */
  function SelectFirst(s: seq<Entry>): seq<Entry> {
    Part(s, IsSelectCard, true) + Part(s, IsSelectCard, false)
  }

  /** The reorder loses and adds nothing, and every Select card comes before every other entry. */
  lemma SelectFirstPartition(s: seq<Entry>)
    ensures multiset(SelectFirst(s)) == multiset(s) && |SelectFirst(s)| == |s|
    ensures var k := |Part(s, IsSelectCard, true)|;
      && (forall i | 0 <= i < k :: IsSelectCard(SelectFirst(s)[i]))
      && (forall i | k <= i < |s| :: !IsSelectCard(SelectFirst(s)[i]))
  {
    Partition(s, IsSelectCard);
    assert |multiset(SelectFirst(s))| == |multiset(s)|;
  }

  /** `reorderBySelect` as the source runs it: one pass pushing into two arrays. */
  method ReorderBySelect(arr: seq<Entry>) returns (r: seq<Entry>)
    ensures r == SelectFirst(arr)
  {
    var selectCards: seq<Entry> := [];
    var others: seq<Entry> := [];
    var i := 0;
    while i < |arr|
      invariant 0 <= i <= |arr|
      invariant selectCards == Part(arr[..i], IsSelectCard, true)
      invariant others == Part(arr[..i], IsSelectCard, false)
    {
      var item := arr[i];
      var labelNorm := ToNorm(item.display);
      PartStep(arr, i, IsSelectCard, true);
      PartStep(arr, i, IsSelectCard, false);
      if Contains(labelNorm, SelectWord) {
        selectCards := selectCards + [item];
      } else {
        others := others + [item];
      }
      i := i + 1;
    }
    assert arr[..|arr|] == arr;
    r := selectCards + others;
  }

  // ---------------------------------------------------------------------
  // Payment intent and sections

  /** `debitIntent`: raw substrings of the lower-cased query, so any query holding `dc` counts. */
  predicate DebitIntent(lv: string) {
    Contains(lv, "debit card") || Contains(lv, "debit") || Contains(lv, "dc")
  }

  predicate UpiIntent(lv: string) {
    Contains(lv, "upi")
  }

  predicate NetBankingIntent(lv: string) {
    Contains(lv, "net banking") || Contains(lv, "netbanking") || Contains(lv, "nb")
  }

  /** The section order, by precedence UPI, net banking, debit, then the credit-first default. */
  function SectionOrder(lv: string): (r: seq<Kind>)
    ensures multiset(r) == multiset{Credit, Debit, Upi, NetBanking}
  {
    if UpiIntent(lv) then [Upi, NetBanking, Credit, Debit]
    else if NetBankingIntent(lv) then [NetBanking, Upi, Credit, Debit]
    else if DebitIntent(lv) then [Debit, Credit, Upi, NetBanking]
    else [Credit, Debit, Upi, NetBanking]
  }

  /** The four kinds' suggestion lists. */
  datatype Lists = Lists(cc: seq<Entry>, dc: seq<Entry>, upi: seq<Entry>, nb: seq<Entry>) {
    function Of(k: Kind): seq<Entry> {
      match k
      case Credit => cc
      case Debit => dc
      case Upi => upi
      case NetBanking => nb
    }

    predicate AllEmpty() {
      cc == [] && dc == [] && upi == [] && nb == []
    }
  }

  /** A section heading or an entry of the dropdown. */
  datatype Item = Heading(text: string) | Card(entry: Entry)

  /** The section labels. */
  function SectionLabel(k: Kind): string {
    match k
    case Credit => "Credit Cards"
    case Debit => "Debit Cards"
    case Upi => "UPI"
    case NetBanking => "Net Banking"
  }

  function Cards(s: seq<Entry>): (r: seq<Item>)
    ensures |r| == |s|
    ensures forall i | 0 <= i < |r| :: r[i] == Card(s[i])
  {
    seq(|s|, i requires 0 <= i < |s| => Card(s[i]))
  }

  /** One section: a heading and its entries, or nothing for an empty kind. */
  function Section(k: Kind, lists: Lists): seq<Item> {
    if lists.Of(k) == [] then [] else [Heading(SectionLabel(k))] + Cards(lists.Of(k))
  }

  /** `buildSections(order)`. */
  function Sections(order: seq<Kind>, lists: Lists): seq<Item>
    decreases |order|
  {
    if order == [] then [] else Section(order[0], lists) + Sections(order[1..], lists)
  }

  /** A heading is shown for exactly the kinds in the order that have entries. */
  lemma {:induction false} SectionsHeading(order: seq<Kind>, lists: Lists, k: Kind)
    ensures Heading(SectionLabel(k)) in Sections(order, lists) <==> k in order && lists.Of(k) != []
    decreases |order|
  {
    if order != [] {
      SectionsHeading(order[1..], lists, k);
      assert Heading(SectionLabel(k)) !in Cards(lists.Of(order[0]));
      assert k in order <==> k == order[0] || k in order[1..];
    }
  }

  /** An entry is shown exactly when it is in the list of a kind in the order. */
  lemma {:induction false} SectionsCard(order: seq<Kind>, lists: Lists, e: Entry)
    ensures Card(e) in Sections(order, lists) <==> exists k | k in order :: e in lists.Of(k)
    decreases |order|
  {
    if order != [] {
      SectionsCard(order[1..], lists, e);
      var k0 := order[0];
      assert Card(e) in Cards(lists.Of(k0)) <==> e in lists.Of(k0) by {
        if Card(e) in Cards(lists.Of(k0)) {
          var i :| 0 <= i < |lists.Of(k0)| && Cards(lists.Of(k0))[i] == Card(e);
        }
        if e in lists.Of(k0) {
          var i :| 0 <= i < |lists.Of(k0)| && lists.Of(k0)[i] == e;
          assert Cards(lists.Of(k0))[i] == Card(e);
        }
      }
      if exists k | k in order :: e in lists.Of(k) {
        var k :| k in order && e in lists.Of(k);
        if k != k0 {
          assert k in order[1..];
        }
      }
    }
  }

  lemma AllKinds(order: seq<Kind>, k: Kind)
    requires multiset(order) == multiset{Credit, Debit, Upi, NetBanking}
    ensures k in order
  {
    match k
    case Credit => assert Credit in multiset(order);
    case Debit => assert Debit in multiset(order);
    case Upi => assert Upi in multiset(order);
    case NetBanking => assert NetBanking in multiset(order);
  }

  /** The section list is empty exactly when every kind is. */
  lemma SectionsEmpty(order: seq<Kind>, lists: Lists)
    requires multiset(order) == multiset{Credit, Debit, Upi, NetBanking}
    ensures Sections(order, lists) == [] <==> lists.AllEmpty()
  {
    if lists.AllEmpty() {
      EmptySections(order, lists);
    } else {
      var k := if lists.cc != [] then Credit else if lists.dc != [] then Debit else if lists.upi != [] then Upi else NetBanking;
      AllKinds(order, k);
      SectionsHeading(order, lists, k);
    }
  }

  lemma {:induction false} EmptySections(order: seq<Kind>, lists: Lists)
    requires lists.AllEmpty()
    ensures Sections(order, lists) == []
    decreases |order|
  {
    if order != [] {
      EmptySections(order[1..], lists);
    }
  }

  // ---------------------------------------------------------------------
  // The query handler

  /** The four kinds' top lists, before any select reorder. */
  function TopLists(trimmed: string, entries: Lists): Lists {
    Lists(Suggested(trimmed, entries.cc), Suggested(trimmed, entries.dc),
          Suggested(trimmed, entries.upi), Suggested(trimmed, entries.nb))
  }

  function Reordered(lists: Lists): Lists {
    Lists(SelectFirst(lists.cc), SelectFirst(lists.dc), SelectFirst(lists.upi), SelectFirst(lists.nb))
  }

  /** What the handler shows for a non-blank trimmed query, given each kind's top list. */
  function Respond(trimmed: string, lists: Lists): (seq<Item>, bool) {
    if lists.AllEmpty() then ([], true)
    else
      var shown := if SelectIntent(ToNorm(trimmed)) then Reordered(lists) else lists;
      (Sections(SectionOrder(Lower(trimmed)), shown), false)
  }

  /** `onChangeQuery`: the query text and the four entry lists give the sections and `noMatches`. */
  function Suggest(val: string, entries: Lists): (seq<Item>, bool) {
    var trimmed := Trim(val);
    if trimmed == [] then ([], false) else Respond(trimmed, TopLists(trimmed, entries))
  }

  /** A blank query clears the list and reports no "no matches". */
  lemma SuggestBlank(val: string, entries: Lists)
    requires Trim(val) == []
    ensures Suggest(val, entries) == ([], false)
  {
  }

  lemma SameMembers<T>(a: seq<T>, b: seq<T>)
    requires multiset(a) == multiset(b)
    ensures (a == [] <==> b == []) && forall e :: e in a <==> e in b
  {
    assert |a| == |multiset(a)| && |b| == |multiset(b)|;
    assert forall e :: e in a <==> e in multiset(a);
  }

  lemma ReorderedKeeps(lists: Lists, k: Kind)
    ensures Reordered(lists).Of(k) == [] <==> lists.Of(k) == []
    ensures forall e :: e in Reordered(lists).Of(k) <==> e in lists.Of(k)
  {
    var s := lists.Of(k);
    assert Reordered(lists).Of(k) == SelectFirst(s);
    SelectFirstPartition(s);
    SameMembers(SelectFirst(s), s);
  }

  lemma ReorderedAllEmpty(lists: Lists)
    ensures Reordered(lists).AllEmpty() <==> lists.AllEmpty()
  {
    ReorderedKeeps(lists, Credit);
    ReorderedKeeps(lists, Debit);
    ReorderedKeeps(lists, Upi);
    ReorderedKeeps(lists, NetBanking);
  }

  /**
   * `noMatches` is set exactly when no kind keeps an entry; otherwise a
   * heading is shown for exactly the kinds that keep one.
   */
  lemma RespondSections(trimmed: string, lists: Lists, k: Kind)
    ensures Respond(trimmed, lists).1 <==> lists.AllEmpty()
    ensures Respond(trimmed, lists).0 == [] <==> lists.AllEmpty()
    ensures Heading(SectionLabel(k)) in Respond(trimmed, lists).0 <==> lists.Of(k) != []
  {
    if !lists.AllEmpty() {
      var order := SectionOrder(Lower(trimmed));
      var shown := if SelectIntent(ToNorm(trimmed)) then Reordered(lists) else lists;
      AllKinds(order, k);
      SectionsHeading(order, shown, k);
      ReorderedKeeps(lists, k);
      ReorderedAllEmpty(lists);
      SectionsEmpty(order, shown);
    }
  }

  /** An entry is shown exactly when it is on one of the top lists. */
  lemma RespondCards(trimmed: string, lists: Lists, e: Entry)
    ensures Card(e) in Respond(trimmed, lists).0 <==> exists k: Kind :: e in lists.Of(k)
  {
    if !lists.AllEmpty() {
      var order := SectionOrder(Lower(trimmed));
      var shown := if SelectIntent(ToNorm(trimmed)) then Reordered(lists) else lists;
      SectionsCard(order, shown, e);
      forall k: Kind
        ensures k in order && (e in shown.Of(k) <==> e in lists.Of(k))
      {
        AllKinds(order, k);
        ReorderedKeeps(lists, k);
      }
    } else {
      assert forall k: Kind :: lists.Of(k) == [];
    }
  }

  /** The kind the section order puts first opens the dropdown when it has entries. */
  lemma RespondLeads(trimmed: string, lists: Lists, k: Kind)
    requires SectionOrder(Lower(trimmed))[0] == k && lists.Of(k) != []
    ensures Respond(trimmed, lists).0 != [] && Respond(trimmed, lists).0[0] == Heading(SectionLabel(k))
  {
    var shown := if SelectIntent(ToNorm(trimmed)) then Reordered(lists) else lists;
    ReorderedKeeps(lists, k);
    var order := SectionOrder(Lower(trimmed));
    assert Respond(trimmed, lists).0 == Sections(order, shown);
    assert Sections(order, shown) == Section(k, shown) + Sections(order[1..], shown);
  }

  /** A query with the UPI intent opens with the UPI section when it has entries. */
  lemma RespondUpiFirst(trimmed: string, lists: Lists)
    requires UpiIntent(Lower(trimmed)) && lists.upi != []
    ensures Respond(trimmed, lists).0 != [] && Respond(trimmed, lists).0[0] == Heading("UPI")
  {
    RespondLeads(trimmed, lists, Upi);
  }

  /** A query with the net banking intent and no UPI intent opens with the net banking section when it has entries. */
  lemma RespondNetBankingFirst(trimmed: string, lists: Lists)
    requires NetBankingIntent(Lower(trimmed)) && !UpiIntent(Lower(trimmed)) && lists.nb != []
    ensures Respond(trimmed, lists).0 != [] && Respond(trimmed, lists).0[0] == Heading("Net Banking")
  {
    RespondLeads(trimmed, lists, NetBanking);
  }

  /** A query with the debit intent and neither stronger one opens with the debit section when it has entries. */
  lemma RespondDebitFirst(trimmed: string, lists: Lists)
    requires DebitIntent(Lower(trimmed)) && !UpiIntent(Lower(trimmed)) && !NetBankingIntent(Lower(trimmed))
    requires lists.dc != []
    ensures Respond(trimmed, lists).0 != [] && Respond(trimmed, lists).0[0] == Heading("Debit Cards")
  {
    RespondLeads(trimmed, lists, Debit);
  }

  /** A query with none of the three intents opens with the credit card section when it has entries. */
  lemma RespondCreditFirst(trimmed: string, lists: Lists)
    requires !UpiIntent(Lower(trimmed)) && !NetBankingIntent(Lower(trimmed)) && !DebitIntent(Lower(trimmed))
    requires lists.cc != []
    ensures Respond(trimmed, lists).0 != [] && Respond(trimmed, lists).0[0] == Heading("Credit Cards")
  {
    RespondLeads(trimmed, lists, Credit);
  }

  /**
   * The handler: a non-blank query shows exactly the entries on the four
   * top lists, a heading for each kind with one, and `noMatches` exactly
   * when there are none.
   */
  lemma SuggestShows(val: string, entries: Lists, k: Kind, e: Entry)
    requires Trim(val) != []
    ensures var lists := TopLists(Trim(val), entries);
      && (Suggest(val, entries).1 <==> lists.AllEmpty())
      && (Suggest(val, entries).0 == [] <==> lists.AllEmpty())
      && (Heading(SectionLabel(k)) in Suggest(val, entries).0 <==> lists.Of(k) != [])
      && (Card(e) in Suggest(val, entries).0 <==> exists k': Kind :: e in lists.Of(k'))
  {
    var lists := TopLists(Trim(val), entries);
    RespondSections(Trim(val), lists, k);
    RespondCards(Trim(val), lists, e);
  }

  /** A text shorter than `t` does not contain it. */
  lemma {:induction false} ShortNoContains(s: string, t: string)
    requires |s| < |t|
    ensures !Contains(s, t)
  {
    if s != [] {
      ShortNoContains(s[1..], t);
    }
  }

  /** `pnb` holds `nb`, so a query naming that bank opens with the net banking section when it has entries. */
  lemma PnbIsNetBankingIntent(trimmed: string, lists: Lists)
    requires Lower(trimmed) == "pnb"
    ensures !UpiIntent(Lower(trimmed)) && NetBankingIntent(Lower(trimmed))
    ensures lists.nb != [] ==>
      Respond(trimmed, lists).0 != [] && Respond(trimmed, lists).0[0] == Heading("Net Banking")
  {
    var lv := Lower(trimmed);
    assert lv[1..3] == "nb";
    ContainsAt(lv, "nb", 1);
    assert lv[0] != 'u';
    ShortNoContains(lv[1..], "upi");
    if lists.nb != [] {
      RespondNetBankingFirst(trimmed, lists);
    }
  }
}
