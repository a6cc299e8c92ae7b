/** tonuino_organizer/utils.py: the natural sort key, the natural sort of
    file paths, and the two-digit folder prefix. */
module Utils {
  import opened Wrappers
  import opened Chars

  // ---------------------------------------------------------------------
  // re.split(r'(\d+)', text)
  // ---------------------------------------------------------------------

  /** The first position at or after `i` that holds a digit (or the end). */
  function NonDigitEnd(s: string, i: nat): (r: nat)
    requires i <= |s|
    ensures i <= r <= |s|
    ensures forall k :: i <= k < r ==> !IsDigit(s[k])
    ensures r < |s| ==> IsDigit(s[r])
    decreases |s| - i
  {
    if i == |s| || IsDigit(s[i]) then i else NonDigitEnd(s, i + 1)
  }

  /** The first position at or after `i` that holds no digit (or the end). */
  function DigitEnd(s: string, i: nat): (r: nat)
    requires i <= |s|
    ensures i <= r <= |s|
    ensures forall k :: i <= k < r ==> IsDigit(s[k])
    ensures r < |s| ==> !IsDigit(s[r])
    decreases |s| - i
  {
    if i == |s| || !IsDigit(s[i]) then i else DigitEnd(s, i + 1)
  }

  function Concat(parts: seq<string>): string {
    if parts == [] then [] else parts[0] + Concat(parts[1..])
  }

  /** The shape of `re.split` with a capturing digit pattern: an odd number
      of pieces; even positions hold no digit; odd positions are non-empty
      digit runs; and, the runs being maximal, every even piece strictly
      inside is non-empty. */
  predicate Alternates(parts: seq<string>) {
    && |parts| % 2 == 1
    && (forall i :: 0 <= i < |parts| && i % 2 == 0 ==> NoDigits(parts[i]))
    && (forall i :: 0 <= i < |parts| && i % 2 == 1 ==> parts[i] != [] && AllDigits(parts[i]))
    && (forall i :: 0 < i < |parts| - 1 && i % 2 == 0 ==> parts[i] != [])
  }

  lemma AlternatesCons(x: string, y: string, rest: seq<string>)
    requires NoDigits(x) && y != [] && AllDigits(y)
    requires Alternates(rest) && (|rest| > 1 ==> rest[0] != [])
    ensures Alternates([x, y] + rest)
  {
    var p := [x, y] + rest;
    forall i | 2 <= i < |p| ensures p[i] == rest[i - 2] { }
  }

  lemma ConcatCons(x: string, y: string, rest: seq<string>)
    ensures Concat([x, y] + rest) == x + y + Concat(rest)
  {
    var p := [x, y] + rest;
    assert p[1..] == [y] + rest;
    assert p[1..][1..] == rest;
  }

  /** The split of `s[i..]`: the text before the next digit, the maximal
      digit run there, then the split of what follows it. */
  function SplitFrom(s: string, i: nat): seq<string>
    requires i <= |s|
    decreases |s| - i
  {
    var a := NonDigitEnd(s, i);
    if a == |s| then [s[i..]]
    else
      var d := DigitEnd(s, a);
      [s[i..a], s[a..d]] + SplitFrom(s, d)
  }

  /** Python's `re.split(r'(\d+)', text)`. */
  function SplitDigitRuns(s: string): seq<string> {
    SplitFrom(s, 0)
  }

  /** A text piece `s[i..a]` and a maximal digit run `s[a..e]` come off the
      front of the split together. */
  lemma SplitRun(s: string, i: nat, a: nat, e: nat)
    requires i <= a < e <= |s|
    requires forall k :: i <= k < a ==> !IsDigit(s[k])
    requires forall k :: a <= k < e ==> IsDigit(s[k])
    requires e < |s| ==> !IsDigit(s[e])
    ensures SplitFrom(s, i) == [s[i..a], s[a..e]] + SplitFrom(s, e)
  {
    assert IsDigit(s[a]);
    var a' := NonDigitEnd(s, i);
    assert a' < |s| ==> IsDigit(s[a']);
    assert a' == a;
    assert DigitEnd(s, a) == e;
  }

  /** One step of the split: a text piece, a digit run, then the rest. */
  lemma SplitFromStep(s: string, i: nat)
    requires i <= |s| && NonDigitEnd(s, i) < |s|
    ensures SplitFrom(s, i) == [s[i..NonDigitEnd(s, i)], s[NonDigitEnd(s, i)..DigitEnd(s, NonDigitEnd(s, i))]]
                               + SplitFrom(s, DigitEnd(s, NonDigitEnd(s, i)))
  {
  }

  lemma {:induction false} SplitFromAlternates(s: string, i: nat)
    requires i <= |s|
    ensures Alternates(SplitFrom(s, i))
    decreases |s| - i
  {
    var a := NonDigitEnd(s, i);
    if a == |s| {
      assert SplitFrom(s, i) == [s[i..]];
    } else {
      var d := DigitEnd(s, a);
      var rest := SplitFrom(s, d);
      SplitFromAlternates(s, d);
      assert |rest| > 1 ==> NonDigitEnd(s, d) > d && rest[0] != [];
      AlternatesCons(s[i..a], s[a..d], rest);
      SplitFromStep(s, i);
    }
  }

  lemma SliceJoin(s: string, i: nat, a: nat, d: nat)
    requires i <= a <= d <= |s|
    ensures s[i..a] + s[a..d] + s[d..] == s[i..]
  {
  }

  lemma {:induction false} SplitFromConcat(s: string, i: nat)
    requires i <= |s|
    ensures Concat(SplitFrom(s, i)) == s[i..]
    decreases |s| - i
  {
    var a := NonDigitEnd(s, i);
    if a == |s| {
      assert SplitFrom(s, i) == [s[i..]];
      assert Concat([s[i..]]) == s[i..] + Concat([]);
    } else {
      var d := DigitEnd(s, a);
      var rest := SplitFrom(s, d);
      SplitFromConcat(s, d);
      var x, y := s[i..a], s[a..d];
      SplitFromStep(s, i);
      assert SplitFrom(s, i) == [x, y] + rest;
      ConcatCons(x, y, rest);
      assert Concat(SplitFrom(s, i)) == x + y + s[d..];
      SliceJoin(s, i, a, d);
    }
  }

  /** Because the pattern captures, the pieces alternate between text
      without digits and maximal digit runs, and joined back together they
      give the text. */
  lemma SplitDigitRunsShape(s: string)
    ensures Alternates(SplitDigitRuns(s))
    ensures Concat(SplitDigitRuns(s)) == s
  {
    SplitFromAlternates(s, 0);
    SplitFromConcat(s, 0);
  }

  // ---------------------------------------------------------------------
  // natural_sort_key
  // ---------------------------------------------------------------------

  /** One element of a natural sort key: Python builds a list mixing
      lower-cased strings and ints. */
  datatype KeyPart = Text(s: string) | Num(n: nat)

  /** The `convert` helper: digit strings become ints, everything else is
      lower-cased (`"".isdigit()` is false, so an empty piece stays text). */
  function ConvertPart(p: string): KeyPart {
    if p != [] && AllDigits(p) then Num(DigitsValue(p)) else Text(LowerStr(p))
  }

  /** `[convert(c) for c in parts]`. */
  function ConvertAll(parts: seq<string>): seq<KeyPart> {
    seq(|parts|, i requires 0 <= i < |parts| => ConvertPart(parts[i]))
  }

  /** Converting alternating pieces puts text at even positions and ints at
      odd ones; the text carries no digit and is already lower case. */
  lemma ConvertAllShape(parts: seq<string>)
    requires Alternates(parts)
    ensures |ConvertAll(parts)| % 2 == 1
    ensures forall i :: 0 <= i < |parts| ==> (ConvertAll(parts)[i].Text? <==> i % 2 == 0)
    ensures forall i :: 0 <= i < |parts| && ConvertAll(parts)[i].Text? ==>
              NoDigits(ConvertAll(parts)[i].s) && LowerStr(ConvertAll(parts)[i].s) == ConvertAll(parts)[i].s
  {
    var key := ConvertAll(parts);
    forall i | 0 <= i < |key| && key[i].Text?
      ensures NoDigits(key[i].s) && LowerStr(key[i].s) == key[i].s
    {
      LowerStrIdempotent(parts[i]);
    }
  }

  /** `natural_sort_key`. */
  function NaturalSortKey(text: string): (key: seq<KeyPart>)
    ensures |key| % 2 == 1
    ensures forall i :: 0 <= i < |key| ==> (key[i].Text? <==> i % 2 == 0)
    ensures forall i :: 0 <= i < |key| && key[i].Text? ==>
              NoDigits(key[i].s) && LowerStr(key[i].s) == key[i].s
  {
    SplitDigitRunsShape(text);
    ConvertAllShape(SplitDigitRuns(text));
    ConvertAll(SplitDigitRuns(text))
  }

  /** The key holds one element per piece of the split: the lower-cased text
      at even positions and the digit run's value at odd ones. */
  lemma NaturalSortKeyParts(text: string)
    ensures |NaturalSortKey(text)| == |SplitDigitRuns(text)|
    ensures forall i :: 0 <= i < |SplitDigitRuns(text)| && i % 2 == 1 ==>
              AllDigits(SplitDigitRuns(text)[i])
              && NaturalSortKey(text)[i] == Num(DigitsValue(SplitDigitRuns(text)[i]))
    ensures forall i :: 0 <= i < |SplitDigitRuns(text)| && i % 2 == 0 ==>
              NaturalSortKey(text)[i] == Text(LowerStr(SplitDigitRuns(text)[i]))
  {
    SplitDigitRunsShape(text);
  }

  /** A digit-free name has the one-element key holding its lower-cased text. */
  lemma DigitFreeKey(text: string)
    requires NoDigits(text)
    ensures NaturalSortKey(text) == [Text(LowerStr(text))]
  {
    assert NonDigitEnd(text, 0) == |text|;
    assert SplitDigitRuns(text) == [text];
  }

  lemma {:induction false} NonDigitEndLower(s: string, i: nat)
    requires i <= |s|
    ensures NonDigitEnd(LowerStr(s), i) == NonDigitEnd(s, i)
    decreases |s| - i
  {
    if i < |s| { NonDigitEndLower(s, i + 1); }
  }

  lemma {:induction false} DigitEndLower(s: string, i: nat)
    requires i <= |s|
    ensures DigitEnd(LowerStr(s), i) == DigitEnd(s, i)
    decreases |s| - i
  {
    if i < |s| { DigitEndLower(s, i + 1); }
  }

  function LowerAll(ps: seq<string>): (r: seq<string>)
    ensures |r| == |ps| && forall i :: 0 <= i < |ps| ==> r[i] == LowerStr(ps[i])
  {
    seq(|ps|, i requires 0 <= i < |ps| => LowerStr(ps[i]))
  }

  lemma LowerStrSlice(s: string, i: nat, j: nat)
    requires i <= j <= |s|
    ensures LowerStr(s)[i..j] == LowerStr(s[i..j])
  {
  }

  lemma LowerAllCons(x: string, y: string, rest: seq<string>)
    ensures LowerAll([x, y] + rest) == [LowerStr(x), LowerStr(y)] + LowerAll(rest)
  {
  }

  lemma {:induction false} SplitFromLower(s: string, i: nat)
    requires i <= |s|
    ensures SplitFrom(LowerStr(s), i) == LowerAll(SplitFrom(s, i))
    decreases |s| - i
  {
    var l := LowerStr(s);
    NonDigitEndLower(s, i);
    var a := NonDigitEnd(s, i);
    if a < |s| {
      DigitEndLower(s, a);
      var d := DigitEnd(s, a);
      LowerStrSlice(s, i, a);
      LowerStrSlice(s, a, d);
      SplitFromLower(s, d);
      LowerAllCons(s[i..a], s[a..d], SplitFrom(s, d));
      assert SplitFrom(s, i) == [s[i..a], s[a..d]] + SplitFrom(s, d);
      assert SplitFrom(l, i) == [l[i..a], l[a..d]] + SplitFrom(l, d);
    } else {
      LowerStrSlice(s, i, |s|);
      assert l[i..] == l[i..|s|] && s[i..] == s[i..|s|];
      assert SplitFrom(s, i) == [s[i..]];
      assert SplitFrom(l, i) == [l[i..]];
      assert LowerAll([s[i..]]) == [LowerStr(s[i..])];
    }
  }

  /** Splitting commutes with lower-casing: letters are never digits. */
  lemma SplitLower(s: string)
    ensures SplitDigitRuns(LowerStr(s)) == LowerAll(SplitDigitRuns(s))
  {
    SplitFromLower(s, 0);
  }

  /** The key of a name equals the key of its lower-cased form. */
  lemma KeyOfLower(s: string)
    ensures NaturalSortKey(LowerStr(s)) == NaturalSortKey(s)
  {
    SplitLower(s);
    var ps := SplitDigitRuns(s);
    forall i | 0 <= i < |ps|
      ensures ConvertPart(LowerStr(ps[i])) == ConvertPart(ps[i])
    {
      LowerStrIdempotent(ps[i]);
      if ps[i] != [] && AllDigits(ps[i]) {
        LowerStrKeepsDigits(ps[i]);
      }
    }
  }

  /** Names that differ only in letter case get equal keys. */
  lemma CaseInsensitiveKey(a: string, b: string)
    requires LowerStr(a) == LowerStr(b)
    ensures NaturalSortKey(a) == NaturalSortKey(b)
  {
    KeyOfLower(a);
    KeyOfLower(b);
  }

  // ---------------------------------------------------------------------
  // Python's `<` on the key lists
  // ---------------------------------------------------------------------

  /** Python's `<` on `str`: lexicographic by code point. */
  predicate StrLess(a: string, b: string)
    decreases |a|
  {
    if a == [] then b != []
    else if b == [] then false
    else if a[0] != b[0] then a[0] < b[0]
    else StrLess(a[1..], b[1..])
  }

  lemma {:induction false} StrLessIrreflexive(a: string)
    ensures !StrLess(a, a)
    decreases |a|
  {
    if a != [] { StrLessIrreflexive(a[1..]); }
  }

  lemma {:induction false} StrLessTransitive(a: string, b: string, c: string)
    requires StrLess(a, b) && StrLess(b, c)
    ensures StrLess(a, c)
    decreases |a|
  {
    if a != [] && a[0] == b[0] && b[0] == c[0] {
      StrLessTransitive(a[1..], b[1..], c[1..]);
    }
  }

  /** Code-point string `<` is a strict total order: of `a < b`, `a == b` and
      `b < a` exactly one holds. */
  lemma {:induction false} StrLessTrichotomy(a: string, b: string)
    ensures a == b || StrLess(a, b) || StrLess(b, a)
    ensures StrLess(a, b) ==> a != b && !StrLess(b, a)
    decreases |a|
  {
    if a != [] && b != [] && a[0] == b[0] {
      StrLessTrichotomy(a[1..], b[1..]);
      if a[1..] == b[1..] {
        assert a == [a[0]] + a[1..] && b == [b[0]] + b[1..];
      }
    }
  }

  /** Two lists whose elements, position by position, have the same Python
      type, so that comparing them never mixes `str` with `int`. */
  predicate SameShape(k1: seq<KeyPart>, k2: seq<KeyPart>) {
    forall i :: 0 <= i < |k1| && i < |k2| ==> k1[i].Text? == k2[i].Text?
  }

  predicate PartLess(x: KeyPart, y: KeyPart)
    requires x.Text? == y.Text?
  {
    if x.Text? then StrLess(x.s, y.s) else x.n < y.n
  }

  /** Python's `<` on lists: the first differing position decides, and a
      proper prefix is smaller. Defined only where Python would not raise
      `TypeError`. */
  predicate KeyLess(k1: seq<KeyPart>, k2: seq<KeyPart>)
    requires SameShape(k1, k2)
    decreases |k1|
  {
    if k1 == [] then k2 != []
    else if k2 == [] then false
    else if k1[0] != k2[0] then PartLess(k1[0], k2[0])
    else KeyLess(k1[1..], k2[1..])
  }

  /** Any two natural sort keys compare element by element without mixing
      strings and integers: every even position is text, every odd one an int. */
  lemma KeysSameShape(a: string, b: string)
    ensures SameShape(NaturalSortKey(a), NaturalSortKey(b))
  {
  }

  lemma {:induction false} KeyLessIrreflexive(k: seq<KeyPart>)
    ensures SameShape(k, k) && !KeyLess(k, k)
    decreases |k|
  {
    if k != [] { KeyLessIrreflexive(k[1..]); }
  }

  lemma PartLessTransitive(x: KeyPart, y: KeyPart, z: KeyPart)
    requires x.Text? == y.Text? == z.Text?
    requires PartLess(x, y) && PartLess(y, z)
    ensures PartLess(x, z)
  {
    if x.Text? { StrLessTransitive(x.s, y.s, z.s); }
  }

  lemma PartLessIrreflexive(x: KeyPart)
    ensures !PartLess(x, x)
  {
    if x.Text? { StrLessIrreflexive(x.s); }
  }

  lemma {:induction false} KeyLessTransitive(a: seq<KeyPart>, b: seq<KeyPart>, c: seq<KeyPart>)
    requires SameShape(a, b) && SameShape(b, c) && SameShape(a, c)
    requires KeyLess(a, b) && KeyLess(b, c)
    ensures KeyLess(a, c)
    decreases |a|
  {
    if a != [] {
      if a[0] != b[0] && b[0] != c[0] {
        PartLessTransitive(a[0], b[0], c[0]);
        if a[0] == c[0] {
          PartLessTransitive(a[0], b[0], a[0]);
          PartLessIrreflexive(a[0]);
        }
      } else if a[0] == b[0] && b[0] == c[0] {
        KeyLessTransitive(a[1..], b[1..], c[1..]);
      }
    }
  }

  /** On same-shaped keys Python's list `<` is total: of `a < b`, `a == b`
      and `b < a` exactly one holds, so a stable sort by the key has only
      one possible result. */
  lemma {:induction false} KeyLessTrichotomy(a: seq<KeyPart>, b: seq<KeyPart>)
    requires SameShape(a, b)
    ensures SameShape(b, a)
    ensures a == b || KeyLess(a, b) || KeyLess(b, a)
    ensures KeyLess(a, b) ==> a != b && !KeyLess(b, a)
    decreases |a|
  {
    if a != [] && b != [] {
      if a[0] != b[0] {
        if a[0].Text? {
          StrLessTrichotomy(a[0].s, b[0].s);
        }
      } else {
        KeyLessTrichotomy(a[1..], b[1..]);
        if a[1..] == b[1..] {
          assert a == [a[0]] + a[1..] && b == [b[0]] + b[1..];
        }
      }
    }
  }

  // ---------------------------------------------------------------------
  // sort_files_naturally
  // ---------------------------------------------------------------------

  /** `Path.name`: the part of a path after its last `/`. */
  function FileName(path: string): (r: string)
    ensures '/' !in r
    decreases |path|
  {
    if path == [] then []
    else if path[|path| - 1] == '/' then []
    else FileName(path[..|path| - 1]) + [path[|path| - 1]]
  }

  /** The name is the suffix of the path after its last `/`: what precedes
      it, if anything, is a `/`. */
  lemma {:induction false} FileNameIsLastComponent(path: string)
    ensures |FileName(path)| <= |path|
    ensures FileName(path) == path[|path| - |FileName(path)|..]
    ensures |FileName(path)| < |path| ==> path[|path| - |FileName(path)| - 1] == '/'
    decreases |path|
  {
    if path != [] && path[|path| - 1] != '/' {
      var init := path[..|path| - 1];
      FileNameIsLastComponent(init);
      var m := |FileName(init)|;
      assert init[|init| - m..] + [path[|path| - 1]] == path[|path| - (m + 1)..];
    }
  }

  function PathKey(path: string): seq<KeyPart> {
    NaturalSortKey(FileName(path))
  }

  /** `natural_sort_key(a.name) < natural_sort_key(b.name)`. */
  predicate NaturallyBefore(a: string, b: string) {
    KeysSameShape(FileName(a), FileName(b));
    KeyLess(PathKey(a), PathKey(b))
  }

  lemma NaturallyBeforeIrreflexive(a: string)
    ensures !NaturallyBefore(a, a)
  {
    KeyLessIrreflexive(PathKey(a));
  }

  lemma NaturallyBeforeTransitive(a: string, b: string, c: string)
    requires NaturallyBefore(a, b) && NaturallyBefore(b, c)
    ensures NaturallyBefore(a, c)
  {
    KeysSameShape(FileName(a), FileName(c));
    KeyLessTransitive(PathKey(a), PathKey(b), PathKey(c));
  }

  /** A name made of digit-free text, a digit run and a rest starting with a
      non-digit has a key that opens with the lower-cased text and the run's
      value. */
  lemma KeyHead(p: string, d: string, r: string)
    requires NoDigits(p) && d != [] && AllDigits(d)
    requires r != [] && !IsDigit(r[0])
    ensures |NaturalSortKey(p + d + r)| >= 2
    ensures NaturalSortKey(p + d + r)[0] == Text(LowerStr(p))
    ensures NaturalSortKey(p + d + r)[1] == Num(DigitsValue(d))
  {
    var s := p + d + r;
    var a := |p|;
    var e := |p| + |d|;
    assert forall k :: 0 <= k < a ==> s[k] == p[k];
    assert forall k :: a <= k < e ==> s[k] == d[k - a];
    assert s[a] == d[0] && s[e] == r[0];
    assert NonDigitEnd(s, 0) == a;
    assert DigitEnd(s, a) == e;
    SplitFromStep(s, 0);
    assert s[0..a] == p;
    assert s[a..e] == d;
    var parts := SplitDigitRuns(s);
    assert parts[0] == p && parts[1] == d;
    assert NaturalSortKey(s) == ConvertAll(parts);
  }

  /** Python's list `<` on two keys that agree at position 0 and hold ints at
      position 1 is decided by those ints. */
  lemma SecondNumberDecides(k1: seq<KeyPart>, k2: seq<KeyPart>)
    requires SameShape(k1, k2) && |k1| >= 2 && |k2| >= 2
    requires k1[0] == k2[0] && k1[1].Num? && k2[1].Num? && k1[1].n < k2[1].n
    ensures KeyLess(k1, k2)
  {
    assert k1[1..][0] != k2[1..][0];
    assert KeyLess(k1[1..], k2[1..]);
  }

  /** A name without a slash is its own `Path.name`. */
  lemma {:induction false} FileNameOfPlainName(path: string)
    requires '/' !in path
    ensures FileName(path) == path
    decreases |path|
  {
    if path != [] {
      var init := path[..|path| - 1];
      assert forall c :: c in init ==> c in path;
      FileNameOfPlainName(init);
      assert path == init + [path[|path| - 1]];
    }
  }

  /** Names that share their text up to a number are ordered by that
      number, whatever the text after it: `file2` before `file10`. */
  lemma NumbersCompareNumerically(p: string, d1: string, d2: string, r1: string, r2: string)
    requires NoDigits(p) && '/' !in p + d1 + r1 && '/' !in p + d2 + r2
    requires d1 != [] && AllDigits(d1) && d2 != [] && AllDigits(d2)
    requires r1 != [] && !IsDigit(r1[0]) && r2 != [] && !IsDigit(r2[0])
    requires DigitsValue(d1) < DigitsValue(d2)
    ensures NaturallyBefore(p + d1 + r1, p + d2 + r2)
  {
    var a, b := p + d1 + r1, p + d2 + r2;
    FileNameOfPlainName(a);
    FileNameOfPlainName(b);
    KeyHead(p, d1, r1);
    KeyHead(p, d2, r2);
    KeysSameShape(a, b);
    SecondNumberDecides(PathKey(a), PathKey(b));
  }

  /** The example the module's documentation gives. */
  lemma File2BeforeFile10(a: string, b: string)
    requires a == "file2.mp3" && b == "file10.mp3"
    ensures NaturallyBefore(a, b)
  {
    assert a == "file" + "2" + ".mp3";
    assert b == "file" + "10" + ".mp3";
    assert DigitsValue("2") == 2;
    assert DigitsValue("10") == 10 by {
      assert "10"[..1] == "1";
    }
    NumbersCompareNumerically("file", "2", "10", ".mp3", ".mp3");
  }

  /** The split of `file10.mp3` from just after `file10`. */
  lemma SplitOfFile10Tail(text: string)
    requires text == "file10.mp3"
    ensures SplitFrom(text, 6) == [".mp", "3", ""]
  {
    assert forall k :: 6 <= k < 9 ==> !IsDigit(text[k]) by {
      assert text[6] == '.' && text[7] == 'm' && text[8] == 'p';
    }
    assert IsDigit(text[9]);
    SplitRun(text, 6, 9, 10);
    assert SplitFrom(text, 10) == [""] by {
      assert |text| == 10 && NonDigitEnd(text, 10) == 10;
      assert text[10..] == [];
    }
    assert text[6..9] == ".mp" && text[9..10] == "3";
  }

  /** `re.split(r'(\d+)', "file10.mp3")`. */
  lemma SplitOfFile10(text: string)
    requires text == "file10.mp3"
    ensures SplitDigitRuns(text) == ["file", "10", ".mp", "3", ""]
  {
    assert forall k :: 0 <= k < 4 ==> !IsDigit(text[k]) by {
      assert text[0] == 'f' && text[1] == 'i' && text[2] == 'l' && text[3] == 'e';
    }
    assert IsDigit(text[4]) && IsDigit(text[5]) && !IsDigit(text[6]);
    SplitRun(text, 0, 4, 6);
    SplitOfFile10Tail(text);
    assert text[0..4] == "file" && text[4..6] == "10";
  }

  /** The key of `file10.mp3`, as the documentation of `natural_sort_key`
      gives it. */
  lemma KeyOfFile10(text: string)
    requires text == "file10.mp3"
    ensures NaturalSortKey(text) == [Text("file"), Num(10), Text(".mp"), Num(3), Text("")]
  {
    SplitOfFile10(text);
    NaturalSortKeyParts(text);
    var key := NaturalSortKey(text);
    assert |key| == 5;
    assert key[0] == Text("file") by {
      assert LowerStr("file") == "file";
    }
    assert key[1] == Num(10) by {
      assert DigitsValue("10") == 10 by {
        assert "10"[..1] == "1";
      }
    }
    assert key[2] == Text(".mp") by {
      assert LowerStr(".mp") == ".mp";
    }
    assert key[3] == Num(3) by {
      assert DigitsValue("3") == 3;
    }
    assert key[4] == Text("");
  }

  /** An irreflexive, transitive "sorts before" relation. */
  ghost predicate StrictOrder<T(!new)>(before: (T, T) -> bool) {
    && (forall a :: !before(a, a))
    && (forall a, b, c :: before(a, b) && before(b, c) ==> before(a, c))
  }

  /** `before` looks only at the key: elements with equal keys are
      interchangeable in it. */
  ghost predicate DependsOnKey<T(!new), K>(before: (T, T) -> bool, key: T -> K) {
    forall a, b, c :: key(a) == key(b) && before(a, c) ==> before(b, c)
  }

  /** No element is followed by one that sorts before it. */
  ghost predicate SortedBy<T>(s: seq<T>, before: (T, T) -> bool) {
    forall i, j :: 0 <= i < j < |s| ==> !before(s[j], s[i])
  }

  /** The elements of `s` whose key is `k`, in their order in `s`. */
  function WithKey<T, K(==)>(s: seq<T>, key: T -> K, k: K): seq<T>
    decreases |s|
  {
    if s == [] then []
    else (if key(s[0]) == k then [s[0]] else []) + WithKey(s[1..], key, k)
  }

  /** Places `x` after every element that does not sort after it: the
      insertion step of a stable sort. */
  function InsertBy<T>(x: T, sorted: seq<T>, before: (T, T) -> bool): seq<T>
    decreases |sorted|
  {
    if sorted == [] then [x]
    else if before(x, sorted[0]) then [x] + sorted
    else [sorted[0]] + InsertBy(x, sorted[1..], before)
  }

  /** Stable insertion sort. */
  function SortBy<T>(xs: seq<T>, before: (T, T) -> bool): seq<T>
    decreases |xs|
  {
    if xs == [] then []
    else InsertBy(xs[|xs| - 1], SortBy(xs[..|xs| - 1], before), before)
  }

  lemma SortedTail<T>(s: seq<T>, before: (T, T) -> bool)
    requires SortedBy(s, before) && s != []
    ensures SortedBy(s[1..], before)
    ensures forall x :: x in s[1..] ==> !before(x, s[0])
  {
    forall i, j | 0 <= i < j < |s[1..]| ensures !before(s[1..][j], s[1..][i]) {
      assert s[1..][j] == s[j + 1] && s[1..][i] == s[i + 1];
    }
  }

  lemma {:induction false} InsertByPermutes<T>(x: T, s: seq<T>, before: (T, T) -> bool)
    ensures multiset(InsertBy(x, s, before)) == multiset(s) + multiset{x}
    decreases |s|
  {
    if s != [] && !before(x, s[0]) {
      InsertByPermutes(x, s[1..], before);
      assert s == [s[0]] + s[1..];
    }
  }

  lemma {:induction false} InsertBySorts<T(!new)>(x: T, s: seq<T>, before: (T, T) -> bool)
    requires StrictOrder(before) && SortedBy(s, before)
    ensures SortedBy(InsertBy(x, s, before), before)
    decreases |s|
  {
    var r := InsertBy(x, s, before);
    if s == [] {
    } else if before(x, s[0]) {
      forall i, j | 0 <= i < j < |r| ensures !before(r[j], r[i]) {
        if i == 0 {
          assert r[j] == s[j - 1];
        } else {
          assert r[i] == s[i - 1] && r[j] == s[j - 1];
        }
      }
    } else {
      var t := InsertBy(x, s[1..], before);
      SortedTail(s, before);
      InsertBySorts(x, s[1..], before);
      InsertByPermutes(x, s[1..], before);
      forall y | y in t ensures !before(y, s[0]) {
        assert y in multiset(t);
        if y != x { assert y in multiset(s[1..]); }
      }
      forall i, j | 0 <= i < j < |r| ensures !before(r[j], r[i]) {
        assert r[j] == t[j - 1];
        if i > 0 { assert r[i] == t[i - 1]; }
      }
    }
  }

  lemma {:induction false} WithKeyNone<T, K>(s: seq<T>, key: T -> K, k: K)
    requires forall i :: 0 <= i < |s| ==> key(s[i]) != k
    ensures WithKey(s, key, k) == []
    decreases |s|
  {
    if s != [] { WithKeyNone(s[1..], key, k); }
  }

  lemma {:induction false} InsertByStable<T(!new), K>(x: T, s: seq<T>, before: (T, T) -> bool, key: T -> K, k: K)
    requires StrictOrder(before) && DependsOnKey(before, key) && SortedBy(s, before)
    ensures WithKey(InsertBy(x, s, before), key, k) ==
            WithKey(s, key, k) + (if key(x) == k then [x] else [])
    decreases |s|
  {
    var r := InsertBy(x, s, before);
    if s == [] {
      assert r[1..] == [];
    } else if before(x, s[0]) {
      assert r[1..] == s;
      if key(x) == k {
        assert forall i :: 0 <= i < |s| ==> key(s[i]) != k;
        WithKeyNone(s, key, k);
      }
    } else {
      SortedTail(s, before);
      InsertByStable(x, s[1..], before, key, k);
      assert r[1..] == InsertBy(x, s[1..], before);
    }
  }

  lemma {:induction false} WithKeyAppend<T, K>(a: seq<T>, b: seq<T>, key: T -> K, k: K)
    ensures WithKey(a + b, key, k) == WithKey(a, key, k) + WithKey(b, key, k)
    decreases |a|
  {
    if a == [] {
      assert a + b == b;
    } else {
      var head := if key(a[0]) == k then [a[0]] else [];
      assert (a + b)[0] == a[0];
      assert (a + b)[1..] == a[1..] + b;
      assert WithKey(a + b, key, k) == head + WithKey(a[1..] + b, key, k);
      WithKeyAppend(a[1..], b, key, k);
      assert WithKey(a, key, k) == head + WithKey(a[1..], key, k);
    }
  }

  /** The sort yields a sorted permutation of its input. */
  lemma {:induction false} SortBySortsPermutes<T(!new)>(xs: seq<T>, before: (T, T) -> bool)
    requires StrictOrder(before)
    ensures SortedBy(SortBy(xs, before), before)
    ensures multiset(SortBy(xs, before)) == multiset(xs)
    decreases |xs|
  {
    if xs != [] {
      var n := |xs|;
      var init := xs[..n - 1];
      SortBySortsPermutes(init, before);
      InsertBySorts(xs[n - 1], SortBy(init, before), before);
      InsertByPermutes(xs[n - 1], SortBy(init, before), before);
      assert xs == init + [xs[n - 1]];
    }
  }

  /** Among elements with equal keys the sort keeps the input order. */
  lemma {:induction false} SortByStable<T(!new), K>(xs: seq<T>, before: (T, T) -> bool, key: T -> K, k: K)
    requires StrictOrder(before) && DependsOnKey(before, key)
    ensures WithKey(SortBy(xs, before), key, k) == WithKey(xs, key, k)
    decreases |xs|
  {
    if xs != [] {
      var n := |xs|;
      var init := xs[..n - 1];
      var x := xs[n - 1];
      var sortedInit := SortBy(init, before);
      var tail := if key(x) == k then [x] else [];
      assert SortBy(xs, before) == InsertBy(x, sortedInit, before);
      SortByStable(init, before, key, k);
      SortBySortsPermutes(init, before);
      InsertByStable(x, sortedInit, before, key, k);
      assert WithKey(SortBy(xs, before), key, k) == WithKey(init, key, k) + tail;
      assert xs == init + [x];
      WithKeyAppend(init, [x], key, k);
      assert WithKey([x], key, k) == tail;
    }
  }

  /** A stable sort by a strict order that looks only at a key: the result
      is a permutation, sorted, and keeps the input order among equal keys. */
  lemma SortByCorrect<T(!new), K>(xs: seq<T>, before: (T, T) -> bool, key: T -> K)
    requires StrictOrder(before) && DependsOnKey(before, key)
    ensures SortedBy(SortBy(xs, before), before)
    ensures multiset(SortBy(xs, before)) == multiset(xs)
    ensures forall k :: WithKey(SortBy(xs, before), key, k) == WithKey(xs, key, k)
  {
    SortBySortsPermutes(xs, before);
    forall k ensures WithKey(SortBy(xs, before), key, k) == WithKey(xs, key, k) {
      SortByStable(xs, before, key, k);
    }
  }

  /** `sorted(files, key=lambda f: natural_sort_key(f.name))`. Python's sort
      is stable, so its result is the one a stable insertion sort gives. */
  function SortFilesNaturally(files: seq<string>): seq<string> {
    SortBy(files, NaturallyBefore)
  }

  /** The natural sort is a permutation of its input, no file is followed by
      one naturally before it, and files with equal keys keep their input
      order (stability). */
  lemma SortFilesNaturallyCorrect(files: seq<string>)
    ensures SortedBy(SortFilesNaturally(files), NaturallyBefore)
    ensures multiset(SortFilesNaturally(files)) == multiset(files)
    ensures forall k :: WithKey(SortFilesNaturally(files), PathKey, k) == WithKey(files, PathKey, k)
  {
    forall a ensures !NaturallyBefore(a, a) { NaturallyBeforeIrreflexive(a); }
    forall a, b, c | NaturallyBefore(a, b) && NaturallyBefore(b, c) ensures NaturallyBefore(a, c) {
      NaturallyBeforeTransitive(a, b, c);
    }
    SortByCorrect(files, NaturallyBefore, PathKey);
  }

  // ---------------------------------------------------------------------
  // extract_two_digit_prefix
  // ---------------------------------------------------------------------

  datatype PrefixError = NoTwoDigitPrefix(folderName: string)

  /** `re.match(r'^(\d{2})', folder_name)`: the first two characters when
      both are digits, `ValueError` otherwise. */
  function ExtractTwoDigitPrefix(folderName: string): (r: Result<string, PrefixError>)
    ensures r.Ok? <==> |folderName| >= 2 && IsDigit(folderName[0]) && IsDigit(folderName[1])
    ensures r.Ok? ==> r.value == folderName[..2] && |r.value| == 2 && AllDigits(r.value)
    ensures r.Err? ==> r.error == NoTwoDigitPrefix(folderName)
  {
    if |folderName| >= 2 && IsDigit(folderName[0]) && IsDigit(folderName[1])
    then Ok(folderName[..2])
    else Err(NoTwoDigitPrefix(folderName))
  }

  /** The folder prefix as the command line describes it ("two digits
      followed by underscore"): `^(\d{2})_`. */
  function ExtractFolderPrefix(folderName: string): (r: Result<string, PrefixError>)
    ensures r.Ok? <==> |folderName| >= 3 && AllDigits(folderName[..2]) && folderName[2] == '_'
    ensures r.Ok? ==> r.value == folderName[..2] && |r.value| == 2 && AllDigits(r.value)
    ensures r.Ok? ==> ExtractTwoDigitPrefix(folderName) == r
    ensures r.Err? ==> r.error == NoTwoDigitPrefix(folderName)
  {
    match ExtractTwoDigitPrefix(folderName)
    case Ok(p) => if |folderName| >= 3 && folderName[2] == '_' then Ok(p) else Err(NoTwoDigitPrefix(folderName))
    case Err(e) => Err(e)
  }

  /** The regex accepts a three-digit prefix and a missing underscore, which
      tests/test_utils.py:186 and :189 expect to be refused. */
  lemma RegexAcceptsMalformedPrefixes()
    ensures ExtractTwoDigitPrefix("001_Album") == Ok("00")
    ensures ExtractTwoDigitPrefix("01Album") == Ok("01")
  {
    assert "001_Album"[..2] == "00";
    assert "01Album"[..2] == "01";
  }

  /** The anchored prefix refuses both, and still accepts the folders the
      tests accept. */
  lemma FolderPrefixExamples()
    ensures ExtractFolderPrefix("001_Album").Err?
    ensures ExtractFolderPrefix("01Album").Err?
    ensures ExtractFolderPrefix("Album").Err? && ExtractFolderPrefix("1_Album").Err?
    ensures ExtractFolderPrefix("").Err?
    ensures ExtractFolderPrefix("01_Album") == Ok("01")
    ensures ExtractFolderPrefix("15_Podcast") == Ok("15")
  {
    assert "01_Album"[..2] == "01";
    assert "15_Podcast"[..2] == "15";
  }
}
