/**
 * Character classes, trimming, substring search, splitting and the text
 * normaliser `toNorm` (src/App.jsx:56-62), the comparison key used
 * everywhere in the matching engine.
 *
 * Characters are modelled as the source's regular expressions see them
 * without the `u` flag: `\w` is the ASCII word class and `\s` the
 * ECMAScript white-space class. Only ASCII letters change case.
 */
module Text {

  /** `\w`: an ASCII letter, digit or underscore. */
  predicate IsWordChar(c: char) {
    ('a' <= c <= 'z') || ('A' <= c <= 'Z') || ('0' <= c <= '9') || c == '_'
  }

  /** `\s`, which is also the set of characters `String.prototype.trim` removes. */
  predicate IsSpace(c: char) {
    c == ' ' || c == '\t' || c == '\n' || c == '\r' || c == '\U{000B}' || c == '\U{000C}'
    || c == '\U{00A0}' || c == '\U{1680}' || ('\U{2000}' <= c <= '\U{200A}')
    || c == '\U{2028}' || c == '\U{2029}' || c == '\U{202F}' || c == '\U{205F}'
    || c == '\U{3000}' || c == '\U{FEFF}'
  }

  predicate IsUpper(c: char) {
    'A' <= c <= 'Z'
  }

  /** A character that can appear in normalised text besides the single space. */
  predicate IsLowerWordChar(c: char) {
    IsWordChar(c) && !IsUpper(c)
  }

  /** `toLowerCase` on one character (ASCII letters only). */
  function LowerChar(c: char): (r: char)
    ensures !IsUpper(r)
    ensures IsWordChar(r) <==> IsWordChar(c)
    ensures IsSpace(r) <==> IsSpace(c)
    ensures !IsUpper(c) ==> r == c
  {
    if IsUpper(c) then (c as int + 32) as char else c
  }

  function Lower(s: string): (r: string)
    ensures |r| == |s|
    ensures forall i | 0 <= i < |s| :: r[i] == LowerChar(s[i])
  {
    seq(|s|, i requires 0 <= i < |s| => LowerChar(s[i]))
  }

  /** `.replace(/[^\w\s]/g, " ")`: every character that is neither a word character nor white space becomes a space. */
  function Punct(s: string): (r: string)
    ensures |r| == |s|
    ensures forall i | 0 <= i < |s| ::
      r[i] == if IsWordChar(s[i]) || IsSpace(s[i]) then s[i] else ' '
  {
    seq(|s|, i requires 0 <= i < |s| => if IsWordChar(s[i]) || IsSpace(s[i]) then s[i] else ' ')
  }

  /** Leading white space removed; also the run a greedy `\s+` consumes. */
  function TrimStart(s: string): (r: string)
    ensures |r| <= |s| && r == s[|s| - |r|..]
    ensures r == [] || !IsSpace(r[0])
    ensures forall i | 0 <= i < |s| - |r| :: IsSpace(s[i])
  {
    if s != [] && IsSpace(s[0]) then
      var r := TrimStart(s[1..]);
      assert forall i | 1 <= i < |s| :: s[i] == s[1..][i - 1];
      assert s[|s| - |r|..] == s[1..][|s| - 1 - |r|..];
      r
    else s
  }

  /** Trailing white space removed. */
  function TrimEnd(s: string): (r: string)
    ensures |r| <= |s| && r == s[..|r|]
    ensures r == [] || !IsSpace(r[|r| - 1])
    ensures forall i | |r| <= i < |s| :: IsSpace(s[i])
  {
    if s != [] && IsSpace(s[|s| - 1]) then TrimEnd(s[..|s| - 1]) else s
  }

  /** `String.prototype.trim`. */
  function Trim(s: string): (r: string)
    ensures |r| <= |s|
    ensures r == [] || (!IsSpace(r[0]) && !IsSpace(r[|r| - 1]))
  {
    TrimEnd(TrimStart(s))
  }

  /** Trimming adds no character. */
  lemma TrimLacks(s: string, c: char)
    requires c !in s
    ensures c !in Trim(s)
  {
    var t := TrimStart(s);
    assert forall i | 0 <= i < |t| :: t[i] == s[|s| - |t| + i];
  }

  /** Trimming twice is trimming once. */
  lemma TrimIdempotent(s: string)
    ensures Trim(Trim(s)) == Trim(s)
  {
    var r := Trim(s);
    assert r == [] || !IsSpace(r[0]);
    assert TrimStart(r) == r;
    assert r == [] || !IsSpace(r[|r| - 1]);
  }

  /** Text without white space at either end is its own trim. */
  lemma TrimmedFixed(s: string)
    requires s == [] || (!IsSpace(s[0]) && !IsSpace(s[|s| - 1]))
    ensures Trim(s) == s
  {
    assert TrimStart(s) == s;
  }

  predicate AllSpace(s: string) {
    forall i | 0 <= i < |s| :: IsSpace(s[i])
  }

  /** `.replace(/\s+/g, " ")`: every maximal run of white space becomes one space. */
  function Collapse(s: string): (r: string)
    ensures |r| <= |s|
    ensures r == [] <==> s == []
    ensures s != [] ==> (r[0] == ' ' <==> IsSpace(s[0]))
    decreases |s|
  {
    if s == [] then []
    else if IsSpace(s[0]) then [' '] + Collapse(TrimStart(s))
    else [s[0]] + Collapse(s[1..])
  }

  /** `toNorm`: lower-case, punctuation to spaces, white-space runs collapsed, trimmed. */
  function ToNorm(s: string): (r: string)
    ensures |r| <= |s|
  {
    Trim(Collapse(Punct(Lower(s))))
  }

  /** Lower-case word characters and single spaces, never two spaces in a row. */
  predicate Spaced(n: string) {
    && (forall i | 0 <= i < |n| :: n[i] == ' ' || IsLowerWordChar(n[i]))
    && (forall i | 0 <= i < |n| - 1 :: n[i] == ' ' ==> n[i + 1] != ' ')
  }

  /** The shape of every `toNorm` result: lower-case word characters separated by single spaces. */
  predicate Normalized(n: string) {
    Spaced(n) && (n != [] ==> n[0] != ' ' && n[|n| - 1] != ' ')
  }

  lemma SpacedSlice(c: string, a: nat, b: nat)
    requires Spaced(c) && a <= b <= |c|
    ensures Spaced(c[a..b])
  {
    var r := c[a..b];
    assert forall i | 0 <= i < |r| :: r[i] == c[a + i];
  }

  lemma SpacedCons(c: char, r: string)
    requires Spaced(r)
    requires c == ' ' || IsLowerWordChar(c)
    requires c == ' ' ==> r == [] || r[0] != ' '
    ensures Spaced([c] + r)
  {
    var x := [c] + r;
    assert forall i | 1 <= i < |x| :: x[i] == r[i - 1];
  }

  /** Text of lower-case word characters and white space only. */
  predicate LowerOrSpace(s: string) {
    forall i | 0 <= i < |s| :: IsLowerWordChar(s[i]) || IsSpace(s[i])
  }

  lemma LowerOrSpaceSuffix(s: string, k: nat)
    requires LowerOrSpace(s) && k <= |s|
    ensures LowerOrSpace(s[k..])
  {
    assert forall i | 0 <= i < |s| - k :: s[k..][i] == s[k + i];
  }

  lemma {:induction false} CollapseShape(s: string)
    requires LowerOrSpace(s)
    ensures Spaced(Collapse(s))
    decreases |s|
  {
    if s == [] {
    } else if IsSpace(s[0]) {
      var t := TrimStart(s);
      LowerOrSpaceSuffix(s, |s| - |t|);
      CollapseShape(t);
      SpacedCons(' ', Collapse(t));
    } else {
      LowerOrSpaceSuffix(s, 1);
      CollapseShape(s[1..]);
      SpacedCons(s[0], Collapse(s[1..]));
    }
  }

  lemma PunctLowerShape(s: string)
    ensures LowerOrSpace(Punct(Lower(s)))
  {
    var l := Lower(s);
    var p := Punct(l);
    forall i | 0 <= i < |p|
      ensures IsLowerWordChar(p[i]) || IsSpace(p[i])
    {
      assert !IsUpper(l[i]);
    }
  }

  /** Trimming spaced text leaves normalised text. */
  lemma TrimSpaced(c: string)
    requires Spaced(c)
    ensures Normalized(Trim(c))
  {
    var t := TrimStart(c);
    SpacedSlice(c, |c| - |t|, |c|);
    var r := TrimEnd(t);
    SpacedSlice(t, 0, |r|);
  }

  /** Every `toNorm` result has the normalised shape. */
  lemma ToNormNormalized(s: string)
    ensures Normalized(ToNorm(s))
  {
    PunctLowerShape(s);
    CollapseShape(Punct(Lower(s)));
    TrimSpaced(Collapse(Punct(Lower(s))));
  }

  /** Spaced text has no run of white space to collapse. */
  lemma {:induction false} CollapseFixed(n: string)
    requires Spaced(n)
    ensures Collapse(n) == n
    decreases |n|
  {
    if n != [] {
      var rest := n[1..];
      assert Spaced(rest) by { SpacedSlice(n, 1, |n|); }
      assert Collapse(rest) == rest by { CollapseFixed(rest); }
      if n[0] == ' ' {
        assert rest == [] || !IsSpace(rest[0]) by {
          if rest != [] {
            assert rest[0] == n[1];
          }
        }
        assert TrimStart(n) == rest by {
          assert TrimStart(n) == TrimStart(rest);
        }
      } else {
        assert !IsSpace(n[0]);
      }
      assert n == [n[0]] + rest;
    }
  }

  lemma NormalizedLowerPunct(n: string)
    requires Normalized(n)
    ensures Punct(Lower(n)) == n
  {
    assert Lower(n) == n;
  }

  lemma NormalizedTrim(n: string)
    requires Normalized(n)
    ensures Trim(n) == n
  {
    assert n == [] || !IsSpace(n[0]);
    assert TrimStart(n) == n;
    assert n == [] || !IsSpace(n[|n| - 1]);
  }

  /** Normalised text is a fixed point of `toNorm`, and only normalised text is. */
  lemma NormalizedIffFixed(n: string)
    ensures ToNorm(n) == n <==> Normalized(n)
  {
    ToNormNormalized(n);
    if Normalized(n) {
      NormalizedLowerPunct(n);
      CollapseFixed(n);
      NormalizedTrim(n);
    }
  }

  /** `toNorm` is idempotent, so `lev` re-normalising normalised text changes nothing. */
  lemma ToNormIdempotent(s: string)
    ensures ToNorm(ToNorm(s)) == ToNorm(s)
  {
    ToNormNormalized(s);
    NormalizedIffFixed(ToNorm(s));
  }

  /** `String.prototype.includes`. */
  predicate Contains(s: string, t: string) {
    t <= s || (s != [] && Contains(s[1..], t))
  }

  /** `includes` finds `t` exactly when some window of `s` equals it. */
  lemma {:induction false} ContainsAt(s: string, t: string, i: nat)
    requires i + |t| <= |s| && s[i..i + |t|] == t
    ensures Contains(s, t)
    decreases i
  {
    if i == 0 {
      assert t <= s;
    } else {
      assert s[1..][i - 1..i - 1 + |t|] == s[i..i + |t|];
      ContainsAt(s[1..], t, i - 1);
    }
  }

  lemma {:induction false} ContainsWitness(s: string, t: string) returns (i: nat)
    requires Contains(s, t)
    ensures i + |t| <= |s| && s[i..i + |t|] == t
    decreases |s|
  {
    if t <= s {
      i := 0;
    } else {
      var j := ContainsWitness(s[1..], t);
      i := j + 1;
      assert s[i..i + |t|] == s[1..][j..j + |t|];
    }
  }

  /** The pieces of `parts` with `sep` between them (`Array.prototype.join`). */
  function Join(parts: seq<string>, sep: string): string {
    if parts == [] then []
    else if |parts| == 1 then parts[0]
    else parts[0] + sep + Join(parts[1..], sep)
  }

  /** `String.prototype.split` with a one-character separator. */
  function Split(s: string, sep: char): (r: seq<string>)
    ensures |r| >= 1
    ensures forall k | 0 <= k < |r| :: sep !in r[k]
    ensures Join(r, [sep]) == s
  {
    if s == [] then [[]]
    else
      var rest := Split(s[1..], sep);
      if s[0] == sep then
        assert ([[]] + rest)[1..] == rest;
        [[]] + rest
      else
        var r := [[s[0]] + rest[0]] + rest[1..];
        assert r[1..] == rest[1..];
        assert |rest| > 1 ==> Join(rest, [sep]) == rest[0] + [sep] + Join(rest[1..], [sep]);
        r
  }

  /** Splitting text that has no separator in it at all gives the text back whole. */
  lemma {:induction false} SplitNoSep(s: string, sep: char)
    requires sep !in s
    ensures Split(s, sep) == [s]
    decreases |s|
  {
    if s != [] {
      SplitNoSep(s[1..], sep);
    }
  }

  /** A separator splits text into what lies before it and the split of what lies after. */
  lemma {:induction false} SplitAtSep(a: string, b: string, sep: char)
    requires sep !in a
    ensures Split(a + [sep] + b, sep) == [a] + Split(b, sep)
    decreases |a|
  {
    if a == [] {
      assert ([sep] + b)[1..] == b;
    } else {
      var s := a + [sep] + b;
      assert s[0] == a[0] && s[1..] == a[1..] + [sep] + b;
      SplitAtSep(a[1..], b, sep);
      var rest := Split(s[1..], sep);
      assert rest == [a[1..]] + Split(b, sep);
      assert Split(s, sep) == [[a[0]] + rest[0]] + rest[1..];
      assert [a[0]] + a[1..] == a;
    }
  }

  /** Splitting undoes joining when no piece holds the separator. */
  lemma {:induction false} SplitJoin(parts: seq<string>, sep: char)
    requires |parts| >= 1
    requires forall k | 0 <= k < |parts| :: sep !in parts[k]
    ensures Split(Join(parts, [sep]), sep) == parts
    decreases |parts|
  {
    if |parts| == 1 {
      SplitNoSep(parts[0], sep);
    } else {
      SplitAtSep(parts[0], Join(parts[1..], [sep]), sep);
      SplitJoin(parts[1..], sep);
      assert parts == [parts[0]] + parts[1..];
    }
  }

  /** `a` is `b` with some elements left out. */
  predicate IsSubseq<T(==)>(a: seq<T>, b: seq<T>)
    decreases |b|
  {
    a == [] || (b != [] && ((a[0] == b[0] && IsSubseq(a[1..], b[1..])) || IsSubseq(a, b[1..])))
  }

  /** `filter(Boolean)`: every non-empty piece, in order, and nothing else. */
  function NonEmpty(parts: seq<string>): (r: seq<string>)
    ensures |r| <= |parts| && IsSubseq(r, parts)
    ensures forall k | 0 <= k < |r| :: r[k] != [] && r[k] in parts
    ensures forall p | p in parts && p != [] :: p in r
  {
    if parts == [] then []
    else if parts[0] == [] then NonEmpty(parts[1..])
    else
      var r := [parts[0]] + NonEmpty(parts[1..]);
      assert r[1..] == NonEmpty(parts[1..]);
      r
  }

  /** Dropping blanks keeps a list that has none. */
  lemma {:induction false} NonEmptyKeeps(parts: seq<string>)
    requires forall k | 0 <= k < |parts| :: parts[k] != []
    ensures NonEmpty(parts) == parts
    decreases |parts|
  {
    if parts != [] {
      NonEmptyKeeps(parts[1..]);
    }
  }

  /** `s.split(" ").filter(Boolean)`: the words of normalised text. */
  function Words(s: string): (r: seq<string>)
    ensures forall k | 0 <= k < |r| :: r[k] != [] && ' ' !in r[k]
  {
    NonEmpty(Split(s, ' '))
  }

  /** Normalised, non-empty text has no empty piece between its spaces. */
  lemma {:induction false} SplitNormalizedNonEmpty(s: string)
    requires Normalized(s) && s != []
    ensures forall k | 0 <= k < |Split(s, ' ')| :: Split(s, ' ')[k] != []
    decreases |s|
  {
    var rest := Split(s[1..], ' ');
    assert Split(s, ' ') == [[s[0]] + rest[0]] + rest[1..];
    if |s| > 1 {
      if s[1] == ' ' {
        assert |s| > 2 && s[2] != ' ';
        assert Normalized(s[2..]) by { SpacedSlice(s, 2, |s|); }
        assert s[1..][1..] == s[2..];
        assert rest[1..] == Split(s[2..], ' ');
        SplitNormalizedNonEmpty(s[2..]);
      } else {
        assert Normalized(s[1..]) by { SpacedSlice(s, 1, |s|); }
        SplitNormalizedNonEmpty(s[1..]);
      }
    }
  }

  /** The words of normalised text, joined by single spaces, give the text back. */
  lemma WordsJoin(s: string)
    requires Normalized(s)
    ensures Join(Words(s), " ") == s
  {
    if s != [] {
      SplitNormalizedNonEmpty(s);
      NonEmptyKeeps(Split(s, ' '));
    }
  }
}
