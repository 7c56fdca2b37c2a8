/**
 * Cell lookup and list splitting (src/App.jsx:64-86): `firstField` and
 * `splitList`, which read one CSV row.
 */
module Entities {
  import opened Wrappers
  import opened Text

  /** One parsed CSV row: column header to cell text. */
  type Row = map<string, string>

  /** A cell `firstField` accepts: the column exists and is not blank. */
  predicate Present(row: Row, key: string) {
    key in row && Trim(row[key]) != []
  }

  /** The position of the first header alias whose cell is present, searching from `from`. */
  function FirstPresent(row: Row, keys: seq<string>, from: nat): (r: Option<nat>)
    requires from <= |keys|
    ensures r.Some? ==> from <= r.value < |keys| && Present(row, keys[r.value])
    ensures r.Some? ==> forall j | from <= j < r.value :: !Present(row, keys[j])
    ensures r.None? ==> forall j | from <= j < |keys| :: !Present(row, keys[j])
    decreases |keys| - from
  {
    if from == |keys| then None
    else if Present(row, keys[from]) then Some(from)
    else FirstPresent(row, keys, from + 1)
  }

  /** `firstField`: the value under the first header alias whose cell is not blank (the value itself, untrimmed). */
  function FirstField(row: Row, keys: seq<string>): (r: Option<string>)
    ensures r.None? <==> forall j | 0 <= j < |keys| :: !Present(row, keys[j])
    ensures r.Some? ==> Trim(r.value) != []
  {
    match FirstPresent(row, keys, 0)
    case Some(i) => Some(row[keys[i]])
    case None => None
  }

  /** `.replace(/\n/g, " ")`. */
  function NewlinesToSpaces(s: string): (r: string)
    ensures |r| == |s| && '\n' !in r
    ensures forall i | 0 <= i < |s| :: r[i] == if s[i] == '\n' then ' ' else s[i]
  {
    seq(|s|, i requires 0 <= i < |s| => if s[i] == '\n' then ' ' else s[i])
  }

  function TrimAll(parts: seq<string>): (r: seq<string>)
    ensures |r| == |parts|
    ensures forall k | 0 <= k < |r| :: r[k] == Trim(parts[k])
  {
    seq(|parts|, k requires 0 <= k < |parts| => Trim(parts[k]))
  }

  /** A list entry as `splitList` produces it. */
  predicate CleanItem(x: string) {
    x != [] && Trim(x) == x && ',' !in x && '\n' !in x
  }

  lemma {:induction false} SplitLacks(s: string, sep: char, c: char)
    requires c !in s
    ensures forall k | 0 <= k < |Split(s, sep)| :: c !in Split(s, sep)[k]
    decreases |s|
  {
    if s != [] {
      SplitLacks(s[1..], sep, c);
    }
  }

  lemma TrimAllClean(parts: seq<string>)
    requires forall k | 0 <= k < |parts| :: ',' !in parts[k] && '\n' !in parts[k]
    ensures forall x | x in TrimAll(parts) :: Trim(x) == x && ',' !in x && '\n' !in x
  {
    forall x | x in TrimAll(parts)
      ensures Trim(x) == x && ',' !in x && '\n' !in x
    {
      var k :| 0 <= k < |parts| && TrimAll(parts)[k] == x;
      TrimIdempotent(parts[k]);
      TrimLacks(parts[k], ',');
      TrimLacks(parts[k], '\n');
    }
  }

  /**
   * `splitList`: nothing for a missing or empty cell; otherwise the
   * comma-separated entries, trimmed, blanks dropped, in order.
   */
  function SplitList(val: Option<string>): (r: seq<string>)
    ensures val.None? || val.value == [] ==> r == []
    ensures forall k | 0 <= k < |r| :: CleanItem(r[k])
  {
    if val.None? || val.value == [] then []
    else
      var flat := NewlinesToSpaces(val.value);
      var parts := Split(flat, ',');
      SplitLacks(flat, ',', '\n');
      TrimAllClean(parts);
      NonEmpty(TrimAll(parts))
  }

  /** `names.join(", ")`, the way list cells are written. */
  function JoinList(names: seq<string>): (r: string)
    ensures (forall k | 0 <= k < |names| :: '\n' !in names[k]) ==> '\n' !in r
  {
    if names == [] then []
    else if |names| == 1 then names[0]
    else names[0] + ", " + JoinList(names[1..])
  }

  /** Every name after the first, with the space that follows each comma. */
  function Padded(names: seq<string>): (r: seq<string>)
    ensures |r| == |names|
    ensures forall k | 0 <= k < |r| :: r[k] == " " + names[k]
  {
    seq(|names|, k requires 0 <= k < |names| => " " + names[k])
  }

  lemma {:induction false} SplitJoinList(names: seq<string>)
    requires |names| >= 1
    requires forall k | 0 <= k < |names| :: ',' !in names[k]
    ensures Split(JoinList(names), ',') == [names[0]] + Padded(names[1..])
    decreases |names|
  {
    if |names| == 1 {
      SplitNoSep(names[0], ',');
    } else {
      var tail := JoinList(names[1..]);
      assert JoinList(names) == names[0] + [','] + (" " + tail);
      SplitAtSep(names[0], " " + tail, ',');
      SplitJoinList(names[1..]);
      assert (" " + tail)[1..] == tail;
      assert Split(" " + tail, ',') == Padded(names[1..]);
    }
  }

  lemma SplitListUnfold(v: string)
    requires v != []
    ensures SplitList(Some(v)) == NonEmpty(TrimAll(Split(NewlinesToSpaces(v), ',')))
  {
  }

  lemma NoNewlinesFixed(s: string)
    requires '\n' !in s
    ensures NewlinesToSpaces(s) == s
  {
  }

  lemma TrimPadded(n: string)
    requires CleanItem(n)
    ensures Trim(" " + n) == n
  {
    assert (" " + n)[1..] == n;
    assert TrimStart(" " + n) == TrimStart(n);
    TrimmedFixed(n);
  }

  lemma TrimAllJoined(names: seq<string>)
    requires |names| >= 1
    requires forall k | 0 <= k < |names| :: CleanItem(names[k])
    ensures TrimAll([names[0]] + Padded(names[1..])) == names
  {
    var parts := [names[0]] + Padded(names[1..]);
    forall k | 0 <= k < |names|
      ensures Trim(parts[k]) == names[k]
    {
      if k > 0 {
        assert parts[k] == " " + names[k];
        TrimPadded(names[k]);
      }
    }
  }

  /** `splitList` gives back, in order, the clean names a list cell was written from. */
  lemma SplitListJoinList(names: seq<string>)
    requires |names| >= 1
    requires forall k | 0 <= k < |names| :: CleanItem(names[k])
    ensures SplitList(Some(JoinList(names))) == names
  {
    var cell := JoinList(names);
    assert '\n' !in cell by {
      assert forall k | 0 <= k < |names| :: '\n' !in names[k];
    }
    NoNewlinesFixed(cell);
    var parts := Split(cell, ',');
    assert parts == [names[0]] + Padded(names[1..]) by {
      SplitJoinList(names);
    }
    assert TrimAll(parts) == names by {
      TrimAllJoined(names);
    }
    assert NonEmpty(names) == names by {
      NonEmptyKeeps(names);
    }
    SplitListUnfold(cell);
  }
}
