/**
 * Instrument-name parsing (src/App.jsx:88-99): `getBase` strips one
 * trailing parenthesised group and `getVariant` returns that group's text.
 *
 * The regular expressions are modelled by how a backtracking matcher
 * finds the LEFTMOST match: every start position is tried in order.
 */
module Names {
  import opened Wrappers
  import opened Text

  /** Position of the first `)` at or after `from`: where `[^)]*\)` stops. */
  function CloseFrom(s: string, from: nat): (r: Option<nat>)
    requires from <= |s|
    ensures r.Some? ==> from <= r.value < |s| && s[r.value] == ')'
    ensures r.Some? ==> forall j | from <= j < r.value :: s[j] != ')'
    ensures r.None? ==> forall j | from <= j < |s| :: s[j] != ')'
    decreases |s| - from
  {
    if from == |s| then None
    else if s[from] == ')' then Some(from)
    else CloseFrom(s, from + 1)
  }

  /** End of the greedy `\s*` that starts at `from`. */
  function SkipSpaces(s: string, from: nat): (r: nat)
    requires from <= |s|
    ensures from <= r <= |s|
    ensures forall j | from <= j < r :: IsSpace(s[j])
    ensures r == |s| || !IsSpace(s[r])
    decreases |s| - from
  {
    if from < |s| && IsSpace(s[from]) then SkipSpaces(s, from + 1) else from
  }

  /**
   * Whether `getBase`'s pattern `\s*\([^)]*\)\s*$` matches from `p`.
   * `(` is not white space, so `\s*` must take the whole run of spaces;
   * `[^)]*` cannot pass a `)`, so the group closes at the first `)`.
   */
  predicate GroupAt(s: string, p: nat)
    requires p <= |s|
  {
    var k := SkipSpaces(s, p);
    k < |s| && s[k] == '(' &&
    match CloseFrom(s, k + 1)
    case None => false
    case Some(m) => AllSpace(s[m + 1..])
  }

  /** The leftmost start, at or after `p`, of a match of `getBase`'s pattern. */
  function FirstGroupFrom(s: string, p: nat): (r: Option<nat>)
    requires p <= |s|
    ensures r.Some? ==> p <= r.value <= |s| && GroupAt(s, r.value)
    ensures r.Some? ==> forall q | p <= q < r.value :: !GroupAt(s, q)
    ensures r.None? ==> forall q | p <= q <= |s| :: !GroupAt(s, q)
    decreases |s| - p
  {
    if GroupAt(s, p) then Some(p)
    else if p == |s| then None
    else FirstGroupFrom(s, p + 1)
  }

  /** `getBase`: the name with its leftmost-matched trailing `(...)` group removed, trimmed. */
  function Base(name: string): (r: string)
    ensures |r| <= |name|
    ensures r == [] || (!IsSpace(r[0]) && !IsSpace(r[|r| - 1]))
  {
    if name == [] then []
    else
      match FirstGroupFrom(name, 0)
      case Some(p) => Trim(name[..p])
      case None => Trim(name)
  }

  /** Where `getVariant`'s pattern `\(([^)]+)\)\s*$` matches from `k`: the position of its `)`. */
  function VariantAt(s: string, k: nat): (r: Option<nat>)
    requires k <= |s|
    ensures r.Some? ==> k + 1 < r.value < |s| && s[k] == '(' && s[r.value] == ')'
  {
    if k < |s| && s[k] == '(' then
      match CloseFrom(s, k + 1)
      case Some(m) => if m > k + 1 && AllSpace(s[m + 1..]) then Some(m) else None
      case None => None
    else None
  }

  /** The leftmost match of `getVariant`'s pattern at or after `k`: its `(` and its `)`. */
  function FirstVariantFrom(s: string, k: nat): (r: Option<(nat, nat)>)
    requires k <= |s|
    ensures r.Some? ==> k <= r.value.0 <= |s| && VariantAt(s, r.value.0) == Some(r.value.1)
    ensures r.Some? ==> forall q | k <= q < r.value.0 :: VariantAt(s, q).None?
    ensures r.None? ==> forall q | k <= q <= |s| :: VariantAt(s, q).None?
    decreases |s| - k
  {
    match VariantAt(s, k)
    case Some(m) => Some((k, m))
    case None => if k == |s| then None else FirstVariantFrom(s, k + 1)
  }

  /** `getVariant`: the trimmed text of a non-empty trailing `(...)` group, or `""`. */
  function Variant(name: string): (r: string)
    ensures |r| <= |name|
    ensures r == [] || (!IsSpace(r[0]) && !IsSpace(r[|r| - 1]))
  {
    if name == [] then []
    else
      match FirstVariantFrom(name, 0)
      case Some((k, m)) => Trim(name[k + 1..m])
      case None => []
  }

  /** Some `)` occurs at or after `from`. */
  predicate ClosesFrom(b: string, from: nat)
    requires from <= |b|
  {
    CloseFrom(b, from).Some?
  }

  /** Every `(` in `b` is closed by a later `)` in `b`. */
  predicate ParensClosed(b: string) {
    forall k | 0 < k <= |b| && b[k - 1] == '(' :: ClosesFrom(b, k)
  }

  /** The name a list cell spells as `base (variant)`. */
  function Named(b: string, v: string): string {
    b + " (" + v + ")"
  }

  lemma NamedShape(b: string, v: string)
    ensures var s := Named(b, v);
      && |s| == |b| + |v| + 3
      && s[..|b|] == b && s[|b|] == ' ' && s[|b| + 1] == '('
      && s[|b| + 2..|s| - 1] == v && s[|s| - 1] == ')'
      && (forall j | 0 <= j < |b| :: s[j] == b[j])
  {
  }

  lemma NotAllSpace(s: string, from: nat, i: nat)
    requires from <= i < |s| && !IsSpace(s[i])
    ensures !AllSpace(s[from..])
  {
    assert s[from..][i - from] == s[i];
  }

  lemma ClosedAt(b: string, k: nat) returns (j: nat)
    requires ParensClosed(b) && k < |b| && b[k] == '('
    ensures k < j < |b| && b[j] == ')'
  {
    assert ClosesFrom(b, k + 1);
    j := CloseFrom(b, k + 1).value;
  }

  /** A `(` inside `b` closes inside `b`, so what follows its `)` is not blank. */
  lemma NoCloseAtEnd(b: string, v: string, k: nat)
    requires ParensClosed(b) && k < |b| && b[k] == '('
    ensures var s := Named(b, v);
      CloseFrom(s, k + 1).Some? && !AllSpace(s[CloseFrom(s, k + 1).value + 1..])
  {
    var s := Named(b, v);
    NamedShape(b, v);
    var j := ClosedAt(b, k);
    assert s[j] == ')';
    var m := CloseFrom(s, k + 1);
    assert m.Some? && m.value <= j;
    NotAllSpace(s, m.value + 1, |b| + 1);
  }

  /** No start inside `b` can begin a match when `b` ends in a non-space and closes its own parentheses. */
  lemma NoGroupInside(b: string, v: string, q: nat)
    requires q < |b| && !IsSpace(b[|b| - 1]) && ParensClosed(b)
    ensures !GroupAt(Named(b, v), q)
  {
    var s := Named(b, v);
    assert s[|b| - 1] == b[|b| - 1];
    var k := SkipSpaces(s, q);
    assert s[k] == b[k];
    if s[k] == '(' {
      NoCloseAtEnd(b, v, k);
    }
  }

  lemma TrimmedLast(b: string)
    requires Trim(b) == b && b != []
    ensures !IsSpace(b[|b| - 1])
  {
  }

  lemma GroupAtBaseEnd(b: string, v: string)
    requires ')' !in v
    ensures GroupAt(Named(b, v), |b|)
  {
    var s := Named(b, v);
    NamedShape(b, v);
    assert !IsSpace('(');
    assert SkipSpaces(s, |b|) == |b| + 1;
    assert forall j | |b| + 2 <= j < |s| - 1 :: s[j] == v[j - |b| - 2];
    assert CloseFrom(s, |b| + 2) == Some(|s| - 1);
  }

  /** `getBase` takes back the base a name was written from (the leftmost trailing group is the last one). */
  lemma BaseOfNamed(b: string, v: string)
    requires Trim(b) == b && ParensClosed(b)
    requires ')' !in v
    ensures Base(Named(b, v)) == b
  {
    var s := Named(b, v);
    NamedShape(b, v);
    GroupAtBaseEnd(b, v);
    forall q | 0 <= q < |b|
      ensures !GroupAt(s, q)
    {
      TrimmedLast(b);
      NoGroupInside(b, v, q);
    }
    assert FirstGroupFrom(s, 0) == Some(|b|);
  }

  lemma NoVariantInside(b: string, v: string, q: nat)
    requires ParensClosed(b)
    requires q <= |b|
    ensures VariantAt(Named(b, v), q).None?
  {
    var s := Named(b, v);
    NamedShape(b, v);
    if q < |b| && s[q] == '(' {
      NoCloseAtEnd(b, v, q);
    }
  }

  /** `getVariant` takes back the (trimmed) variant a name was written with. */
  lemma VariantOfNamed(b: string, v: string)
    requires ParensClosed(b)
    requires v != [] && ')' !in v
    ensures Variant(Named(b, v)) == Trim(v)
  {
    var s := Named(b, v);
    NamedShape(b, v);
    assert forall j | |b| + 2 <= j < |s| - 1 :: s[j] == v[j - |b| - 2];
    assert CloseFrom(s, |b| + 2) == Some(|s| - 1);
    assert VariantAt(s, |b| + 1) == Some(|s| - 1);
    forall q | 0 <= q <= |b|
      ensures VariantAt(s, q).None?
    {
      NoVariantInside(b, v, q);
    }
    assert FirstVariantFrom(s, 0) == Some((|b| + 1, |s| - 1));
  }

  /** A `)` followed only by white space is where trailing white space starts. */
  lemma TrimEndAtClose(s: string, m: nat)
    requires m < |s| && !IsSpace(s[m]) && AllSpace(s[m + 1..])
    ensures |TrimEnd(s)| == m + 1
  {
    var r := TrimEnd(s);
    if |r| > m + 1 {
      assert s[m + 1..][|r| - 1 - (m + 1)] == s[|r| - 1];
    }
  }

  /** A `)` followed only by white space ends the text once trailing white space is trimmed. */
  lemma CloseEndsTrimmed(s: string, m: nat)
    requires m < |s| && s[m] == ')' && AllSpace(s[m + 1..])
    ensures var t := TrimEnd(s); t != [] && t[|t| - 1] == ')'
  {
    assert !IsSpace(s[m]);
    TrimEndAtClose(s, m);
  }

  lemma GroupEndsTrimmed(s: string, p: nat)
    requires p <= |s| && GroupAt(s, p)
    ensures var t := TrimEnd(s); t != [] && t[|t| - 1] == ')'
  {
    var k := SkipSpaces(s, p);
    CloseEndsTrimmed(s, CloseFrom(s, k + 1).value);
  }

  lemma VariantEndsTrimmed(s: string, q: nat)
    requires q <= |s| && VariantAt(s, q).Some?
    ensures var t := TrimEnd(s); t != [] && t[|t| - 1] == ')'
  {
    CloseEndsTrimmed(s, VariantAt(s, q).value);
  }

  lemma NoGroupWhenOpen(s: string)
    requires var t := TrimEnd(s); t == [] || t[|t| - 1] != ')'
    ensures forall p | 0 <= p <= |s| :: !GroupAt(s, p)
  {
    forall p | 0 <= p <= |s|
      ensures !GroupAt(s, p)
    {
      if GroupAt(s, p) {
        GroupEndsTrimmed(s, p);
      }
    }
  }

  lemma NoVariantWhenOpen(s: string)
    requires var t := TrimEnd(s); t == [] || t[|t| - 1] != ')'
    ensures forall q | 0 <= q <= |s| :: VariantAt(s, q).None?
  {
    forall q | 0 <= q <= |s|
      ensures VariantAt(s, q).None?
    {
      if VariantAt(s, q).Some? {
        VariantEndsTrimmed(s, q);
      }
    }
  }

  /** Text whose last non-blank character is not `)` has no group: `getBase` only trims it and `getVariant` is `""`. */
  lemma NoTrailingGroup(s: string)
    requires var t := TrimEnd(s); t == [] || t[|t| - 1] != ')'
    ensures Base(s) == Trim(s)
    ensures Variant(s) == []
  {
    NoGroupWhenOpen(s);
    NoVariantWhenOpen(s);
    if s != [] {
      assert FirstGroupFrom(s, 0).None?;
      assert FirstVariantFrom(s, 0).None?;
    }
  }

  /** The way the example name is written. */
  lemma RegaliaSpelling()
    ensures Named("HDFC Regalia", "Visa Signature") == "HDFC Regalia (Visa Signature)"
  {
  }

  /** The documented example: the base of a card written with its network tier. */
  lemma RegaliaBase()
    ensures Base(Named("HDFC Regalia", "Visa Signature")) == "HDFC Regalia"
  {
    TrimmedFixed("HDFC Regalia");
    assert ParensClosed("HDFC Regalia");
    BaseOfNamed("HDFC Regalia", "Visa Signature");
  }

  /** The documented example: the variant of a card written with its network tier. */
  lemma RegaliaVariant()
    ensures Variant(Named("HDFC Regalia", "Visa Signature")) == "Visa Signature"
  {
    TrimmedFixed("Visa Signature");
    assert ParensClosed("HDFC Regalia");
    assert ')' !in "Visa Signature";
    VariantOfNamed("HDFC Regalia", "Visa Signature");
  }

  /** Every `(` is closed in text that ends with `)`. */
  lemma EndsClosed(s: string)
    requires s != [] && s[|s| - 1] == ')'
    ensures ParensClosed(s)
  {
    forall k | 0 < k <= |s| && s[k - 1] == '('
      ensures ClosesFrom(s, k)
    {
      assert k < |s|;
    }
  }

  /** A written name with a non-blank base is itself a valid base for another group. */
  lemma NamedIsBase(b: string, v: string)
    requires b != [] && Trim(b) == b
    ensures Trim(Named(b, v)) == Named(b, v) && ParensClosed(Named(b, v))
  {
    var s := Named(b, v);
    NamedShape(b, v);
    assert !IsSpace(s[0]) by {
      TrimmedLast(b);
      assert b[0] == s[0];
      assert TrimStart(b) != [] ;
    }
    TrimmedFixed(s);
    EndsClosed(s);
  }

  /**
   * A name written with two groups loses one group per `getBase`: the
   * first application leaves `b (v)`, a second one leaves `b`.
   */
  lemma BaseTwice(b: string, v: string, w: string)
    requires b != [] && Trim(b) == b && ParensClosed(b)
    requires ')' !in v && ')' !in w
    ensures Base(Named(Named(b, v), w)) == Named(b, v)
    ensures Base(Base(Named(Named(b, v), w))) == b
  {
    NamedIsBase(b, v);
    BaseOfNamed(Named(b, v), w);
    BaseOfNamed(b, v);
  }
}
