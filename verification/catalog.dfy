/**
 * The instrument catalog: dropdown entries built from the card list
 * (src/App.jsx:331-356) and the chip strips built from the offer files
 * (src/App.jsx:411-471).
 *
 * Both builders file every listed name under `toNorm` of its canonical
 * base in an insertion-ordered JavaScript `Map`, keeping the first
 * display seen for each key (`map.set(k, map.get(k) || base)`), then sort
 * the displays. The `Map` is the class `DisplayMap`; the value `Cat` is
 * its contents, and the functions on `Cat` specify the builders.
 */
module Catalog {
  import opened Wrappers
  import opened Text
  import opened Entities
  import opened Names
  import opened Brand
  import opened Ordering

  /** The four payment-instrument kinds (`"credit"`, `"debit"`, `"upi"`, `"netbanking"`). */
  datatype Kind = Credit | Debit | Upi | NetBanking

  /** A dropdown entry: `{ type, display, baseNorm }`. */
  datatype Entry = Entry(kind: Kind, display: string, baseNorm: string)

  /** The column aliases each kind's list is read from (src/App.jsx:8-11). */
  function ListFields(kind: Kind): seq<string> {
    match kind
    case Credit => ["Eligible Credit Cards", "Eligible Cards"]
    case Debit => ["Eligible Debit Cards", "Applicable Debit Cards"]
    case Upi => ["UPI"]
    case NetBanking => ["Net Banking"]
  }

  /** The single, unsplit name column of the permanent offers (src/App.jsx:17). */
  const PermanentNameFields: seq<string> := ["Eligible Credit Cards"]

  /** `brandCanonicalize(getBase(raw))`: a listed name as the catalog shows it. */
  function CanonicalBase(raw: string): string {
    BrandCanonicalize(Base(raw))
  }

  /** `toNorm(brandCanonicalize(getBase(raw)))`: the key a listed name files under. */
  function KeyOf(raw: string): string {
    ToNorm(CanonicalBase(raw))
  }

  /** `makeEntry`: strips a trailing group again, canonicalises, and keys the result. */
  function MakeEntry(raw: string, kind: Kind): (e: Entry)
    ensures e.kind == kind && Normalized(e.baseNorm)
  {
    var base := CanonicalBase(raw);
    ToNormNormalized(base);
    Entry(kind, base, ToNorm(base))
  }

  /** `names.map((d) => makeEntry(d, kind))`. */
  function Entries(names: seq<string>, kind: Kind): (r: seq<Entry>)
    ensures |r| == |names|
    ensures forall i | 0 <= i < |r| :: r[i] == MakeEntry(names[i], kind)
  {
    seq(|names|, i requires 0 <= i < |names| => MakeEntry(names[i], kind))
  }

  // ---------------------------------------------------------------------
  // The map contents and their specification

  /** The contents of an insertion-ordered `Map` from key to display. */
  datatype Cat = Cat(keys: seq<string>, display: map<string, string>)

  const EmptyCat := Cat([], map[])

  /** Keys in insertion order, each once, and exactly the keys of the map. */
  predicate Valid(c: Cat) {
    && (forall i, j | 0 <= i < j < |c.keys| :: c.keys[i] != c.keys[j])
    && (forall i | 0 <= i < |c.keys| :: c.keys[i] in c.display)
    && (forall k | k in c.display :: k in c.keys)
  }

  /** What the builders maintain: every key is non-empty and is `toNorm` of its non-empty display. */
  predicate Inv(c: Cat) {
    Valid(c) && forall k | k in c.display :: k != [] && c.display[k] != [] && ToNorm(c.display[k]) == k
  }

  /** `map.set(key, map.get(key) || base)`. */
  function Put(c: Cat, key: string, base: string): Cat {
    if key in c.display && c.display[key] != [] then c
    else Cat(if key in c.display then c.keys else c.keys + [key], c.display[key := base])
  }

  /**
   * How a listed name is filed: under `key(raw)`, showing `shown(raw)`.
   * The builders' folds below are stated for any filing, so that their
   * proofs never look inside the name pipeline; the builders use `Listing`.
   */
  datatype Filing = Filing(key: string -> string, shown: string -> string)

  /** Both builders file `raw` under `toNorm(base)`, showing `base = brandCanonicalize(getBase(raw))`. */
  const Listing: Filing := Filing(KeyOf, CanonicalBase)

  /** Every key is `toNorm` of the display filed with it. */
  ghost predicate Keyed(f: Filing) {
    forall raw :: f.key(raw) == ToNorm(f.shown(raw))
  }

  lemma ListingKeyed()
    ensures Keyed(Listing)
  {
    forall raw
      ensures Listing.key(raw) == ToNorm(Listing.shown(raw))
    {
      assert Listing.key(raw) == KeyOf(raw);
    }
  }

  /** One listed name: filed under its key unless the key is empty. */
  function Add(c: Cat, raw: string, f: Filing): Cat {
    var key := f.key(raw);
    if key != [] then Put(c, key, f.shown(raw)) else c
  }

  /** `harvestList` (and the loop body of the card-list builder): the names in order. */
  function AddNames(c: Cat, raws: seq<string>, f: Filing): Cat
    decreases |raws|
  {
    if raws == [] then c else AddNames(Add(c, raws[0], f), raws[1..], f)
  }

  /** Filing a non-empty list files its head first. */
  lemma AddNamesCons(c: Cat, raws: seq<string>, f: Filing)
    requires raws != []
    ensures AddNames(c, raws, f) == AddNames(Add(c, raws[0], f), raws[1..], f)
  {
  }

  /** The list cells of `rows` under `fields`, harvested row by row. */
  function AddRows(c: Cat, rows: seq<Row>, fields: seq<string>, f: Filing): Cat
    decreases |rows|
  {
    if rows == [] then c else AddRows(AddNames(c, SplitList(FirstField(rows[0], fields)), f), rows[1..], fields, f)
  }

  /** The permanent offers' name cells, each taken whole (not split at commas). */
  function AddPermanent(c: Cat, rows: seq<Row>, f: Filing): Cat
    decreases |rows|
  {
    if rows == [] then c
    else
      var c1 := match FirstField(rows[0], PermanentNameFields)
        case Some(nm) => Add(c, nm, f)
        case None => c;
      AddPermanent(c1, rows[1..], f)
  }

  /** `Array.from(map.values())`. */
  function Values(c: Cat): (r: seq<string>)
    requires Valid(c)
    ensures |r| == |c.keys|
    ensures forall i | 0 <= i < |r| :: r[i] == c.display[c.keys[i]]
  {
    seq(|c.keys|, i requires 0 <= i < |c.keys| => c.display[c.keys[i]])
  }

  // ---------------------------------------------------------------------
  // Properties of the map contents

  /** Filing a non-empty display under its own non-empty key keeps the invariant. */
  lemma PutInv(c: Cat, key: string, base: string)
    requires Inv(c) && key != [] && base != [] && ToNorm(base) == key
    ensures Inv(Put(c, key, base))
    ensures c.keys <= Put(c, key, base).keys
    ensures forall k | k in c.display :: k in Put(c, key, base).display && Put(c, key, base).display[k] == c.display[k]
  {
    if key !in c.display {
      PutNewValid(c, key, base);
      var r := Put(c, key, base);
      forall k | k in r.display
        ensures k != [] && r.display[k] != [] && ToNorm(r.display[k]) == k
      {
        if k != key {
          assert r.display[k] == c.display[k];
        }
      }
    }
  }

  lemma PutNewValid(c: Cat, key: string, base: string)
    requires Valid(c) && key !in c.display
    ensures Valid(Put(c, key, base))
  {
    var r := Put(c, key, base);
    assert r.keys == c.keys + [key];
    assert forall i | 0 <= i < |c.keys| :: c.keys[i] != key;
  }

  lemma AddInv(c: Cat, raw: string, f: Filing)
    requires Inv(c) && Keyed(f)
    ensures Inv(Add(c, raw, f))
    ensures c.keys <= Add(c, raw, f).keys
    ensures forall k | k in c.display :: k in Add(c, raw, f).display && Add(c, raw, f).display[k] == c.display[k]
  {
    var base := f.shown(raw);
    var key := f.key(raw);
    if key != [] {
      assert key == ToNorm(base);
      PutInv(c, key, base);
    }
  }

  /** The builders keep their invariant, never reorder keys and never replace a display. */
  lemma {:induction false} AddNamesInv(c: Cat, raws: seq<string>, f: Filing)
    requires Inv(c) && Keyed(f)
    ensures Inv(AddNames(c, raws, f))
    ensures c.keys <= AddNames(c, raws, f).keys
    ensures forall k | k in c.display :: k in AddNames(c, raws, f).display && AddNames(c, raws, f).display[k] == c.display[k]
    decreases |raws|
  {
    if raws != [] {
      AddInv(c, raws[0], f);
      AddNamesInv(Add(c, raws[0], f), raws[1..], f);
    }
  }

  /** A key is in the map afterwards exactly when it was before or some listed name files under it. */
  lemma {:induction false} AddNamesKeys(c: Cat, raws: seq<string>, f: Filing, k: string)
    ensures k in AddNames(c, raws, f).display <==>
      k in c.display || (k != [] && exists i | 0 <= i < |raws| :: f.key(raws[i]) == k)
    decreases |raws|
  {
    if raws != [] {
      var c1 := Add(c, raws[0], f);
      assert k in c1.display <==> k in c.display || (k != [] && k == f.key(raws[0])) by { AddKeys(c, raws[0], f, k); }
      assert k in AddNames(c, raws, f).display <==>
        k in c1.display || (k != [] && exists i | 0 <= i < |raws[1..]| :: f.key(raws[1..][i]) == k)
      by { AddNamesKeys(c1, raws[1..], f, k); }
      ExistsCons(raws, f.key, k);
    }
  }

  /** Some element of a non-empty list maps to `k` exactly when its head or some element of its tail does. */
  lemma ExistsCons<T>(s: seq<T>, f: T -> string, k: string)
    requires s != []
    ensures (exists i | 0 <= i < |s| :: f(s[i]) == k) <==> (f(s[0]) == k || exists i | 0 <= i < |s[1..]| :: f(s[1..][i]) == k)
  {
    if exists i | 0 <= i < |s| :: f(s[i]) == k {
      var i :| 0 <= i < |s| && f(s[i]) == k;
      if i > 0 {
        assert s[1..][i - 1] == s[i];
      }
    }
    if exists i | 0 <= i < |s[1..]| :: f(s[1..][i]) == k {
      var i :| 0 <= i < |s[1..]| && f(s[1..][i]) == k;
      assert s[i + 1] == s[1..][i];
    }
  }

  /** One name adds at most its own key, with its own display. */
  lemma AddKeys(c: Cat, raw: string, f: Filing, k: string)
    ensures k in Add(c, raw, f).display <==> k in c.display || (k != [] && k == f.key(raw))
    ensures k !in c.display && k in Add(c, raw, f).display ==> Add(c, raw, f).display[k] == f.shown(raw)
  {
    var key := f.key(raw);
    if key != [] {
      PutKeys(c, key, f.shown(raw), k);
    }
  }

  /** `map.set(key, map.get(key) || base)` adds at most `key`, and a new key gets `base`. */
  lemma PutKeys(c: Cat, key: string, base: string, k: string)
    ensures k in Put(c, key, base).display <==> k in c.display || k == key
    ensures k !in c.display && k in Put(c, key, base).display ==> Put(c, key, base).display[k] == base
  {
  }

  /** A new key shows the display of the first listed name that files under it: the first one wins. */
  lemma {:induction false} AddNamesFirstWins(c: Cat, raws: seq<string>, f: Filing, i: nat)
    requires Inv(c) && Keyed(f)
    requires i < |raws| && f.key(raws[i]) != [] && f.key(raws[i]) !in c.display
    requires forall j | 0 <= j < i :: f.key(raws[j]) != f.key(raws[i])
    ensures f.key(raws[i]) in AddNames(c, raws, f).display
    ensures AddNames(c, raws, f).display[f.key(raws[i])] == f.shown(raws[i])
    decreases i
  {
    var key := f.key(raws[i]);
    var c1 := Add(c, raws[0], f);
    assert AddNames(c, raws, f) == AddNames(c1, raws[1..], f);
    assert Inv(c1) by { AddInv(c, raws[0], f); }
    assert key in c1.display <==> key == f.key(raws[0]) by { AddKeys(c, raws[0], f, key); }
    if i == 0 {
      assert c1.display[key] == f.shown(raws[0]) by { AddKeys(c, raws[0], f, key); }
      assert key in AddNames(c1, raws[1..], f).display && AddNames(c1, raws[1..], f).display[key] == c1.display[key]
      by { AddNamesInv(c1, raws[1..], f); }
    } else {
      var rest := raws[1..];
      assert rest[i - 1] == raws[i];
      forall j | 0 <= j < i - 1
        ensures f.key(rest[j]) != f.key(rest[i - 1])
      {
        assert rest[j] == raws[j + 1];
      }
      AddNamesFirstWins(c1, rest, f, i - 1);
    }
  }

  lemma {:induction false} AddRowsInv(c: Cat, rows: seq<Row>, fields: seq<string>, f: Filing)
    requires Inv(c) && Keyed(f)
    ensures Inv(AddRows(c, rows, fields, f))
    decreases |rows|
  {
    if rows != [] {
      AddNamesInv(c, SplitList(FirstField(rows[0], fields)), f);
      AddRowsInv(AddNames(c, SplitList(FirstField(rows[0], fields)), f), rows[1..], fields, f);
    }
  }

  lemma {:induction false} AddPermanentInv(c: Cat, rows: seq<Row>, f: Filing)
    requires Inv(c) && Keyed(f)
    ensures Inv(AddPermanent(c, rows, f))
    decreases |rows|
  {
    if rows != [] {
      match FirstField(rows[0], PermanentNameFields)
      case Some(nm) =>
        AddInv(c, nm, f);
        AddPermanentInv(Add(c, nm, f), rows[1..], f);
      case None =>
        AddPermanentInv(c, rows[1..], f);
    }
  }

  /** No two displays of a map that keeps the invariant normalise alike. */
  lemma ValuesDistinctNorms(c: Cat)
    requires Inv(c)
    ensures DistinctNorms(Values(c))
  {
  }

  predicate DistinctNorms(s: seq<string>) {
    forall i, j | 0 <= i < j < |s| :: ToNorm(s[i]) != ToNorm(s[j])
  }

  lemma DistinctNormsPermutation(s: seq<string>, t: seq<string>)
    requires DistinctNorms(s) && multiset(t) == multiset(s)
    ensures DistinctNorms(t)
  {
    forall i, j | 0 <= i < j < |t|
      ensures ToNorm(t[i]) != ToNorm(t[j])
    {
      DistinctPair(s, t, i, j);
    }
  }

  lemma DistinctPair(s: seq<string>, t: seq<string>, i: nat, j: nat)
    requires DistinctNorms(s) && multiset(t) == multiset(s)
    requires i < j < |t|
    ensures ToNorm(t[i]) != ToNorm(t[j])
  {
    assert t[i] in multiset(s) && t[j] in multiset(s);
    var p :| 0 <= p < |s| && s[p] == t[i];
    var q :| 0 <= q < |s| && s[q] == t[j];
    if p == q {
      SeqTwice(t, i, j);
      DistinctNormsDistinct(s);
      SeqOnce(s, p);
    }
  }

  predicate Distinct(s: seq<string>) {
    forall i, j | 0 <= i < j < |s| :: s[i] != s[j]
  }

  lemma DistinctNormsDistinct(s: seq<string>)
    requires DistinctNorms(s)
    ensures Distinct(s)
  {
  }

  lemma SeqTwice(t: seq<string>, i: nat, j: nat)
    requires i < j < |t| && t[i] == t[j]
    ensures multiset(t)[t[i]] >= 2
  {
    assert t == t[..i] + [t[i]] + t[i + 1..j] + [t[j]] + t[j + 1..];
  }

  lemma SeqOnce(s: seq<string>, p: nat)
    requires Distinct(s) && p < |s|
    ensures multiset(s)[s[p]] == 1
  {
    assert s == s[..p] + [s[p]] + s[p + 1..];
    assert s[p] !in s[..p];
    assert s[p] !in s[p + 1..];
  }

  /** A strip of names: `Array.from(map.values()).sort(...)`. */
  function Strip(c: Cat): (r: seq<string>)
    requires Valid(c)
  {
    SortStrings(Values(c))
  }

  /** A strip is sorted, holds exactly the map's displays, and shows one name per key. */
  lemma StripFacts(c: Cat)
    requires Inv(c)
    ensures SortedStrings(Strip(c)) && multiset(Strip(c)) == multiset(Values(c))
    ensures DistinctNorms(Strip(c))
  {
    SortStringsSorted(Values(c));
    ValuesDistinctNorms(c);
    DistinctNormsPermutation(Values(c), Strip(c));
  }

  // ---------------------------------------------------------------------
  // The Map, updated in place

  /** A JavaScript `Map` from normalised base to display name. */
  class DisplayMap {
    var keys: seq<string>
    var display: map<string, string>

    function Model(): Cat
      reads this
    {
      Cat(keys, display)
    }

    constructor ()
      ensures Model() == EmptyCat
    {
      keys := [];
      display := map[];
    }

    /** `map.set(key, map.get(key) || base)`. */
    method Set(key: string, base: string)
      modifies this
      ensures Model() == Put(old(Model()), key, base)
    {
      var current := if key in display then display[key] else [];
      var value := if current != [] then current else base;
      if key !in display {
        keys := keys + [key];
      }
      display := display[key := value];
    }

    /**
     * The loop body shared by both builders: file one listed name. The
     * display `f.shown(raw)` is `brandCanonicalize(getBase(raw))` at every
     * call (`Listing`); taking it as a parameter keeps the loops' proofs
     * independent of how names are canonicalised.
     */
    method Harvest(raw: string, f: Filing)
      requires Keyed(f)
      modifies this
      ensures Model() == Add(old(Model()), raw, f)
    {
      var base := f.shown(raw);
      var baseNorm := ToNorm(base);
      if baseNorm != [] {
        Set(baseNorm, base);
      }
    }

    /** `harvestList(val, map)`. */
    method HarvestList(val: Option<string>, f: Filing)
      requires Keyed(f)
      modifies this
      ensures Model() == AddNames(old(Model()), SplitList(val), f)
    {
      var list := SplitList(val);
      ghost var target := AddNames(Model(), list, f);
      var i := 0;
      while i < |list|
        invariant 0 <= i <= |list|
        invariant target == AddNames(Model(), list[i..], f)
      {
        ghost var before := Model();
        AddNamesCons(before, list[i..], f);
        assert list[i..][1..] == list[i + 1..];
        Harvest(list[i], f);
        assert Model() == Add(before, list[i], f);
        i := i + 1;
      }
    }
  }

  // ---------------------------------------------------------------------
  // The card-list builder (src/App.jsx:331-356)

  /** The card list's credit or debit map. */
  function CardListMap(rows: seq<Row>, kind: Kind): Cat {
    AddRows(EmptyCat, rows, ListFields(kind), Listing)
  }

  /** The dropdown entries of one kind: the map's displays, sorted, each through `makeEntry`. */
  function CardListEntries(rows: seq<Row>, kind: Kind): seq<Entry> {
    ListingKeyed();
    AddRowsInv(EmptyCat, rows, ListFields(kind), Listing);
    Entries(Strip(CardListMap(rows, kind)), kind)
  }

  /** The builder as the source runs it: one pass over the rows feeding both maps. */
  method LoadAllCards(rows: seq<Row>) returns (credit: seq<Entry>, debit: seq<Entry>)
    ensures credit == CardListEntries(rows, Credit)
    ensures debit == CardListEntries(rows, Debit)
  {
    ListingKeyed();
    var creditMap := new DisplayMap();
    var debitMap := new DisplayMap();
    var i := 0;
    while i < |rows|
      invariant 0 <= i <= |rows|
      invariant AddRows(creditMap.Model(), rows[i..], ListFields(Credit), Listing) == CardListMap(rows, Credit)
      invariant AddRows(debitMap.Model(), rows[i..], ListFields(Debit), Listing) == CardListMap(rows, Debit)
    {
      assert rows[i..][1..] == rows[i + 1..];
      creditMap.HarvestList(FirstField(rows[i], ListFields(Credit)), Listing);
      debitMap.HarvestList(FirstField(rows[i], ListFields(Debit)), Listing);
      i := i + 1;
    }
    AddRowsInv(EmptyCat, rows, ListFields(Credit), Listing);
    AddRowsInv(EmptyCat, rows, ListFields(Debit), Listing);
    credit := Entries(SortStrings(Values(creditMap.Model())), Credit);
    debit := Entries(SortStrings(Values(debitMap.Model())), Debit);
  }

  // ---------------------------------------------------------------------
  // The chip builder (src/App.jsx:411-471)

  /** The four offer files in the order they are harvested. */
  datatype Sources = Sources(blinkit: seq<Row>, swiggy: seq<Row>, zepto: seq<Row>, bigbasket: seq<Row>, permanent: seq<Row>)

  /** The chip strips and the UPI and net-banking dropdown entries. */
  datatype Chips = Chips(cc: seq<string>, dc: seq<string>, upi: seq<string>, nb: seq<string>,
                         upiEntries: seq<Entry>, nbEntries: seq<Entry>)

  /** One kind's map after the four grocery files, in order. */
  function RetailMap(src: Sources, kind: Kind): Cat {
    var f := ListFields(kind);
    AddRows(AddRows(AddRows(AddRows(EmptyCat, src.blinkit, f, Listing), src.swiggy, f, Listing), src.zepto, f, Listing), src.bigbasket, f, Listing)
  }

  /** The maps behind the strips; credit cards also take the permanent offers' names. */
  function ChipMap(src: Sources, kind: Kind): (r: Cat)
    ensures Inv(r)
  {
    var f := ListFields(kind);
    var c1 := AddRows(EmptyCat, src.blinkit, f, Listing);
    var c2 := AddRows(c1, src.swiggy, f, Listing);
    var c3 := AddRows(c2, src.zepto, f, Listing);
    ListingKeyed();
    AddRowsInv(EmptyCat, src.blinkit, f, Listing);
    AddRowsInv(c1, src.swiggy, f, Listing);
    AddRowsInv(c2, src.zepto, f, Listing);
    AddRowsInv(c3, src.bigbasket, f, Listing);
    var retail := RetailMap(src, kind);
    AddPermanentInv(retail, src.permanent, Listing);
    if kind == Credit then AddPermanent(retail, src.permanent, Listing) else retail
  }

  function ChipsSpec(src: Sources): Chips {
    Chips(Strip(ChipMap(src, Credit)), Strip(ChipMap(src, Debit)),
          Strip(ChipMap(src, Upi)), Strip(ChipMap(src, NetBanking)),
          Entries(Strip(ChipMap(src, Upi)), Upi), Entries(Strip(ChipMap(src, NetBanking)), NetBanking))
  }

  /** Every strip is sorted and shows one name per normalised base. */
  lemma ChipsSortedDistinct(src: Sources, kind: Kind)
    ensures SortedStrings(Strip(ChipMap(src, kind))) && DistinctNorms(Strip(ChipMap(src, kind)))
  {
    StripFacts(ChipMap(src, kind));
  }

  /** `harvestRows(rows)`: every row's four list cells into the four maps. */
  method HarvestRows(rows: seq<Row>, cc: DisplayMap, dc: DisplayMap, upi: DisplayMap, nb: DisplayMap)
    requires cc != dc && cc != upi && cc != nb && dc != upi && dc != nb && upi != nb
    modifies cc, dc, upi, nb
    ensures cc.Model() == AddRows(old(cc.Model()), rows, ListFields(Credit), Listing)
    ensures dc.Model() == AddRows(old(dc.Model()), rows, ListFields(Debit), Listing)
    ensures upi.Model() == AddRows(old(upi.Model()), rows, ListFields(Upi), Listing)
    ensures nb.Model() == AddRows(old(nb.Model()), rows, ListFields(NetBanking), Listing)
  {
    ListingKeyed();
    var i := 0;
    while i < |rows|
      invariant 0 <= i <= |rows|
      invariant AddRows(old(cc.Model()), rows, ListFields(Credit), Listing) == AddRows(cc.Model(), rows[i..], ListFields(Credit), Listing)
      invariant AddRows(old(dc.Model()), rows, ListFields(Debit), Listing) == AddRows(dc.Model(), rows[i..], ListFields(Debit), Listing)
      invariant AddRows(old(upi.Model()), rows, ListFields(Upi), Listing) == AddRows(upi.Model(), rows[i..], ListFields(Upi), Listing)
      invariant AddRows(old(nb.Model()), rows, ListFields(NetBanking), Listing) == AddRows(nb.Model(), rows[i..], ListFields(NetBanking), Listing)
    {
      assert rows[i..][1..] == rows[i + 1..];
      var o := rows[i];
      var ccField := FirstField(o, ListFields(Credit));
      if ccField.Some? {
        cc.HarvestList(ccField, Listing);
      }
      var dcField := FirstField(o, ListFields(Debit));
      if dcField.Some? {
        dc.HarvestList(dcField, Listing);
      }
      var upiField := FirstField(o, ListFields(Upi));
      if upiField.Some? {
        upi.HarvestList(upiField, Listing);
      }
      var nbField := FirstField(o, ListFields(NetBanking));
      if nbField.Some? {
        nb.HarvestList(nbField, Listing);
      }
      i := i + 1;
    }
  }

  /** The permanent offers' loop: each row's name cell, whole, into the credit map. */
  method HarvestPermanent(rows: seq<Row>, cc: DisplayMap)
    modifies cc
    ensures cc.Model() == AddPermanent(old(cc.Model()), rows, Listing)
  {
    ListingKeyed();
    var i := 0;
    while i < |rows|
      invariant 0 <= i <= |rows|
      invariant AddPermanent(old(cc.Model()), rows, Listing) == AddPermanent(cc.Model(), rows[i..], Listing)
    {
      assert rows[i..][1..] == rows[i + 1..];
      var nm := FirstField(rows[i], PermanentNameFields);
      if nm.Some? {
        cc.Harvest(nm.value, Listing);
      }
      i := i + 1;
    }
  }

  /** The chip effect as the source runs it. */
  method BuildChips(src: Sources) returns (chips: Chips)
    ensures chips == ChipsSpec(src)
  {
    var cc := new DisplayMap();
    var dc := new DisplayMap();
    var upi := new DisplayMap();
    var nb := new DisplayMap();
    HarvestRows(src.blinkit, cc, dc, upi, nb);
    HarvestRows(src.swiggy, cc, dc, upi, nb);
    HarvestRows(src.zepto, cc, dc, upi, nb);
    HarvestRows(src.bigbasket, cc, dc, upi, nb);
    HarvestPermanent(src.permanent, cc);
    var ccMap, dcMap, upiMap, nbMap := ChipMap(src, Credit), ChipMap(src, Debit), ChipMap(src, Upi), ChipMap(src, NetBanking);
    assert cc.Model() == ccMap && dc.Model() == dcMap && upi.Model() == upiMap && nb.Model() == nbMap;
    var upiStrip := SortStrings(Values(upi.Model()));
    var nbStrip := SortStrings(Values(nb.Model()));
    chips := Chips(SortStrings(Values(cc.Model())), SortStrings(Values(dc.Model())), upiStrip, nbStrip,
                   Entries(upiStrip, Upi), Entries(nbStrip, NetBanking));
  }

  // ---------------------------------------------------------------------
  // What `makeEntry` does to a catalog display

  lemma TrimmedSameLower(a: string, b: string)
    requires Lower(a) == Lower(b) && Trim(a) == a
    ensures Trim(b) == b
  {
    if a != [] {
      assert !IsSpace(a[0]) && !IsSpace(a[|a| - 1]);
      assert LowerChar(b[0]) == LowerChar(a[0]) && LowerChar(b[|b| - 1]) == LowerChar(a[|a| - 1]);
    }
    TrimmedFixed(b);
  }

  /** A catalog display is trimmed and already canonical. */
  lemma CanonicalBaseShape(raw: string)
    ensures Trim(CanonicalBase(raw)) == CanonicalBase(raw)
    ensures BrandCanonicalize(CanonicalBase(raw)) == CanonicalBase(raw)
  {
    TrimmedFixed(Base(raw));
    CanonicalizeKeepsLower(Base(raw));
    TrimmedSameLower(Base(raw), CanonicalBase(raw));
    CanonicalizeIdempotent(Base(raw));
  }

  /**
   * For a display without a trailing group, `makeEntry` keeps the display
   * and its key: the entry is filed under the key the catalog used.
   */
  lemma MakeEntryOfPlainDisplay(raw: string, kind: Kind)
    requires var t := TrimEnd(CanonicalBase(raw)); t == [] || t[|t| - 1] != ')'
    ensures MakeEntry(CanonicalBase(raw), kind) == Entry(kind, CanonicalBase(raw), KeyOf(raw))
  {
    var d := CanonicalBase(raw);
    CanonicalBaseShape(raw);
    NoTrailingGroup(d);
  }

  /**
   * A name listed as `b (v) (w)` is shown in the catalog as `b (v)`, but
   * `makeEntry` strips again: the entry shows `b` and is keyed by
   * `toNorm(b)`, not by the catalog key `toNorm(b (v))`.
   */
  lemma MakeEntryRestrips(b: string, v: string, w: string, kind: Kind)
    requires b != [] && Trim(b) == b && ParensClosed(b)
    requires ')' !in v && ')' !in w
    requires BrandCanonicalize(Named(b, v)) == Named(b, v) && BrandCanonicalize(b) == b
    ensures CanonicalBase(Named(Named(b, v), w)) == Named(b, v)
    ensures MakeEntry(Named(b, v), kind) == Entry(kind, b, ToNorm(b))
  {
    BaseTwice(b, v, w);
  }
}
