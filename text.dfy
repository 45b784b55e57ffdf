/**
 * The JavaScript string built-ins the two action files rely on: decimal
 * `toString` of an integer, `padStart`, `slice`, `trim` and `split(/\s+/)`,
 * together with their inverses or reference definitions.
 */
module Text {

  // ---------------------------------------------------------------------------
  // Decimal digits

  predicate IsDigit(c: char) {
    '0' <= c <= '9'
  }

  predicate AllDigits(s: string) {
    forall i :: 0 <= i < |s| ==> IsDigit(s[i])
  }

  function DigitChar(d: nat): (c: char)
    requires d < 10
    ensures IsDigit(c)
  {
    (48 + d) as char
  }

  function DigitValue(c: char): (d: nat)
    requires IsDigit(c)
    ensures d < 10
  {
    (c as int) - 48
  }

  function Pow10(k: nat): (p: nat)
    ensures p >= 1
  {
    if k == 0 then 1 else 10 * Pow10(k - 1)
  }

  /** `n.toString()` for a non-negative integer: no sign, no leading zero. */
  function Dec(n: nat): (s: string)
    ensures |s| >= 1 && AllDigits(s)
    ensures s[0] == '0' ==> n == 0
    decreases n
  {
    if n < 10 then [DigitChar(n)] else Dec(n / 10) + [DigitChar(n % 10)]
  }

  /** `String(n)` for an integer, as a spreadsheet number cell is turned into text. */
  function IntText(n: int): (s: string)
    ensures |s| >= 1
  {
    if n < 0 then "-" + Dec(-n) else Dec(n)
  }

  /** The number a string of decimal digits denotes (the inverse of Dec). */
  function Value(s: string): nat
    requires AllDigits(s)
  {
    if s == [] then 0 else Value(s[..|s| - 1]) * 10 + DigitValue(s[|s| - 1])
  }

  lemma {:induction false} DecValue(n: nat)
    ensures Value(Dec(n)) == n
    decreases n
  {
    if n >= 10 {
      var s := Dec(n);
      assert s[..|s| - 1] == Dec(n / 10);
      DecValue(n / 10);
    }
  }

  /** Two numbers with the same decimal text are the same number. */
  lemma DecInjective(m: nat, n: nat)
    requires Dec(m) == Dec(n)
    ensures m == n
  {
    DecValue(m);
    DecValue(n);
  }

  lemma {:induction false} ValueBound(s: string)
    requires AllDigits(s)
    ensures Value(s) < Pow10(|s|)
    decreases |s|
  {
    if s != [] {
      ValueBound(s[..|s| - 1]);
    }
  }

  /** The decimal text of n has at most k digits exactly when n < 10^k. */
  lemma {:induction false} DecLength(n: nat, k: nat)
    requires k >= 1
    ensures |Dec(n)| <= k <==> n < Pow10(k)
    decreases n
  {
    if n >= 10 {
      if k == 1 {
        assert Pow10(1) == 10;
        assert |Dec(n)| >= 2;
      } else {
        DecLength(n / 10, k - 1);
      }
    } else {
      assert Pow10(k) >= 10 by { PowMonotone(1, k); }
    }
  }

  lemma {:induction false} PowMonotone(i: nat, j: nat)
    requires i <= j
    ensures Pow10(i) <= Pow10(j)
    decreases j
  {
    if i < j {
      PowMonotone(i, j - 1);
    }
  }

  /** The value of a concatenation: the left part is shifted by the right part's width. */
  lemma {:induction false} ValueAppend(a: string, b: string)
    requires AllDigits(a) && AllDigits(b)
    ensures AllDigits(a + b)
    ensures Value(a + b) == Value(a) * Pow10(|b|) + Value(b)
    decreases |b|
  {
    if b == [] {
      assert a + b == a;
    } else {
      var b' := b[..|b| - 1];
      var ab := a + b;
      assert AllDigits(ab) by {
        forall i | 0 <= i < |ab| ensures IsDigit(ab[i]) {
          if i < |a| { assert ab[i] == a[i]; } else { assert ab[i] == b[i - |a|]; }
        }
      }
      assert ab[..|ab| - 1] == a + b';
      assert ab[|ab| - 1] == b[|b| - 1];
      ValueAppend(a, b');
      var va, vb', p, last := Value(a), Value(b'), Pow10(|b'|), DigitValue(b[|b| - 1]);
      assert Value(ab) == (va * p + vb') * 10 + last;
      assert Value(b) == vb' * 10 + last;
      assert Pow10(|b|) == 10 * p;
      MulShift(va, p);
    }
  }

  lemma MulShift(x: nat, p: nat)
    ensures (x * p) * 10 == x * (10 * p)
  {
  }

  // ---------------------------------------------------------------------------
  // padStart

  function Repeat(c: char, k: nat): (r: string)
    ensures |r| == k
    ensures forall i :: 0 <= i < k ==> r[i] == c
  {
    if k == 0 then [] else [c] + Repeat(c, k - 1)
  }

  /**
   * `s.padStart(width, c)`: fills on the left up to `width` characters and
   * never truncates, so a string already at least `width` long is unchanged.
   */
  function PadStart(s: string, width: nat, c: char): (r: string)
    ensures |r| == if |s| >= width then |s| else width
    ensures r[|r| - |s|..] == s
    ensures forall i :: 0 <= i < |r| - |s| ==> r[i] == c
  {
    if |s| >= width then s else Repeat(c, width - |s|) + s
  }

  lemma {:induction false} ValueOfZeros(k: nat)
    ensures AllDigits(Repeat('0', k)) && Value(Repeat('0', k)) == 0
    decreases k
  {
    if k > 0 {
      var z := Repeat('0', k);
      assert z[..k - 1] == Repeat('0', k - 1);
      ValueOfZeros(k - 1);
    }
  }

  /** Zero padding keeps a digit string a digit string and does not change its value. */
  lemma ZeroPadValue(s: string, width: nat)
    requires AllDigits(s)
    ensures AllDigits(PadStart(s, width, '0'))
    ensures Value(PadStart(s, width, '0')) == Value(s)
  {
    if |s| < width {
      ValueOfZeros(width - |s|);
      ValueAppend(Repeat('0', width - |s|), s);
    }
  }

  /** `x.toString().padStart(w, '0')` reads back as x. */
  lemma PaddedDecValue(n: nat, width: nat)
    ensures AllDigits(PadStart(Dec(n), width, '0'))
    ensures Value(PadStart(Dec(n), width, '0')) == n
  {
    ZeroPadValue(Dec(n), width);
    DecValue(n);
  }

  // ---------------------------------------------------------------------------
  // Whitespace: the characters JavaScript's `trim` and `\s` both treat as white space

  predicate IsSpace(c: char) {
    || c == ' ' || c == '\t' || c == '\n' || c == '\r'
    || c == '\U{000B}' || c == '\U{000C}' || c == '\U{00A0}' || c == '\U{1680}'
    || ('\U{2000}' <= c <= '\U{200A}')
    || c == '\U{2028}' || c == '\U{2029}' || c == '\U{202F}' || c == '\U{205F}'
    || c == '\U{3000}' || c == '\U{FEFF}'
  }

  predicate NoSpace(s: string) {
    forall i :: 0 <= i < |s| ==> !IsSpace(s[i])
  }

  /** Drops a leading run of white space, as `trimStart()` does and as `split` does between pieces. */
  function TrimStart(s: string): (r: string)
    ensures r == [] || !IsSpace(r[0])
    ensures |r| <= |s| && r == s[|s| - |r|..]
    decreases |s|
  {
    if s != [] && IsSpace(s[0]) then TrimStart(s[1..]) else s
  }

  function TrimEnd(s: string): (r: string)
    ensures r == [] || !IsSpace(r[|r| - 1])
    ensures |r| <= |s| && r == s[..|r|]
    decreases |s|
  {
    if s != [] && IsSpace(s[|s| - 1]) then TrimEnd(s[..|s| - 1]) else s
  }

  /** `s.trim()`. */
  function Trim(s: string): (r: string)
  {
    TrimEnd(TrimStart(s))
  }

  lemma TrimEnds(s: string)
    ensures Trim(s) == [] || (!IsSpace(Trim(s)[0]) && !IsSpace(Trim(s)[|Trim(s)| - 1]))
  {
    var t := TrimStart(s);
    var r := TrimEnd(t);
    if r != [] {
      assert r[0] == t[0];
    }
  }

  /**
   * `s.split(/\s+/)`: the pieces between maximal runs of white space, in
   * order. A leading or trailing run yields an empty first or last piece and
   * the empty string yields `[""]`.
   */
  function SplitWs(s: string): (parts: seq<string>)
    ensures |parts| >= 1
    decreases |s|
  {
    if s == [] then [""]
    else if IsSpace(s[0]) then [""] + SplitWs(TrimStart(s))
    else
      var rest := SplitWs(s[1..]);
      [[s[0]] + rest[0]] + rest[1..]
  }

  /** Concatenation of a list of strings. */
  function Concat(parts: seq<string>): string {
    if parts == [] then "" else parts[0] + Concat(parts[1..])
  }

  /** The characters of `s` that are not white space, in order. */
  function NonSpace(s: string): (r: string)
    ensures NoSpace(r)
  {
    if s == [] then "" else (if IsSpace(s[0]) then "" else [s[0]]) + NonSpace(s[1..])
  }

  lemma {:induction false} SplitWsNoSpace(s: string)
    ensures forall k :: 0 <= k < |SplitWs(s)| ==> NoSpace(SplitWs(s)[k])
    decreases |s|
  {
    var parts := SplitWs(s);
    if s == [] {
    } else if IsSpace(s[0]) {
      SplitWsNoSpace(TrimStart(s));
      assert parts[1..] == SplitWs(TrimStart(s));
      forall k | 0 <= k < |parts| ensures NoSpace(parts[k]) {
        if k > 0 {
          assert parts[k] == SplitWs(TrimStart(s))[k - 1];
        }
      }
    } else {
      var rest := SplitWs(s[1..]);
      SplitWsNoSpace(s[1..]);
      forall k | 0 <= k < |parts| ensures NoSpace(parts[k]) {
        if k == 0 {
          assert NoSpace(rest[0]);
        } else {
          assert parts[k] == rest[k];
        }
      }
    }
  }

  lemma {:induction false} SplitWsConcat(s: string)
    ensures Concat(SplitWs(s)) == NonSpace(s)
    decreases |s|
  {
    if s == [] {
    } else if IsSpace(s[0]) {
      SplitWsConcat(TrimStart(s));
      ConcatAfterSpace(s);
    } else {
      SplitWsConcat(s[1..]);
      ConcatAfterChar(s);
    }
  }

  lemma ConcatAfterSpace(s: string)
    requires s != [] && IsSpace(s[0])
    requires Concat(SplitWs(TrimStart(s))) == NonSpace(TrimStart(s))
    ensures Concat(SplitWs(s)) == NonSpace(s)
  {
    var d := TrimStart(s);
    NonSpaceOfTrimStart(s);
    assert SplitWs(s) == [""] + SplitWs(d);
    ConcatCons("", SplitWs(d));
    assert "" + Concat(SplitWs(d)) == Concat(SplitWs(d));
  }

  lemma ConcatAfterChar(s: string)
    requires s != [] && !IsSpace(s[0])
    requires Concat(SplitWs(s[1..])) == NonSpace(s[1..])
    ensures Concat(SplitWs(s)) == NonSpace(s)
  {
    var rest := SplitWs(s[1..]);
    var head, tail := rest[0], rest[1..];
    assert SplitWs(s) == [[s[0]] + head] + tail;
    ConcatCons([s[0]] + head, tail);
  }

  lemma ConcatCons(x: string, xs: seq<string>)
    ensures Concat([x] + xs) == x + Concat(xs)
  {
    assert ([x] + xs)[1..] == xs;
  }

  /**
   * split(/\s+/) against a reference definition: no piece holds white space,
   * and the pieces, concatenated, are exactly the non-space characters of s.
   */
  lemma SplitWsPieces(s: string)
    ensures forall k :: 0 <= k < |SplitWs(s)| ==> NoSpace(SplitWs(s)[k])
    ensures Concat(SplitWs(s)) == NonSpace(s)
  {
    SplitWsNoSpace(s);
    SplitWsConcat(s);
  }

  /** The pieces of a string without a trailing space are non-empty after the first. */
  lemma {:induction false} SplitWsTailNonEmpty(s: string)
    requires s != [] && !IsSpace(s[|s| - 1])
    ensures forall k :: 1 <= k < |SplitWs(s)| ==> SplitWs(s)[k] != ""
    decreases |s|
  {
    var parts := SplitWs(s);
    if IsSpace(s[0]) {
      var d := TrimStart(s);
      TrimStartKeepsLast(s);
      SplitWsTailNonEmpty(d);
      assert parts[1..] == SplitWs(d);
      assert SplitWs(d)[0] != "";
    } else if |s| > 1 {
      var rest := SplitWs(s[1..]);
      SplitWsTailNonEmpty(s[1..]);
      assert forall k :: 1 <= k < |parts| ==> parts[k] == rest[k];
    }
  }

  lemma {:induction false} TrimStartKeepsLast(s: string)
    requires s != [] && !IsSpace(s[|s| - 1])
    ensures TrimStart(s) != [] && TrimStart(s)[|TrimStart(s)| - 1] == s[|s| - 1]
    decreases |s|
  {
    if IsSpace(s[0]) {
      TrimStartKeepsLast(s[1..]);
    }
  }

  /**
   * The department cell after `trim().split(/\s+/)`: the empty (or all
   * white-space) cell gives the single piece "", anything else gives
   * non-empty pieces free of white space.
   */
  predicate Segments(parts: seq<string>) {
    && |parts| >= 1
    && (forall k :: 0 <= k < |parts| ==> NoSpace(parts[k]))
    && (parts == [""] || forall k :: 0 <= k < |parts| ==> parts[k] != "")
  }

  lemma TrimSplitSegments(s: string)
    ensures Segments(SplitWs(Trim(s)))
    ensures SplitWs(Trim(s)) == [""] <==> NonSpace(s) == ""
  {
    var t := Trim(s);
    NonSpaceOfTrim(s);
    TrimEnds(s);
    SegmentsOfTrimmed(t);
  }

  lemma SegmentsOfTrimmed(t: string)
    requires t == [] || (!IsSpace(t[0]) && !IsSpace(t[|t| - 1]))
    ensures Segments(SplitWs(t))
    ensures SplitWs(t) == [""] <==> NonSpace(t) == ""
  {
    var parts := SplitWs(t);
    SplitWsPieces(t);
    if t != [] {
      SplitWsTailNonEmpty(t);
      SplitWsHeadNonEmpty(t);
      assert NonSpace(t) == [t[0]] + NonSpace(t[1..]);
      assert parts[0] != "";
    }
  }

  /** A word without white space is its own single piece. */
  lemma {:induction false} SplitWsWord(a: string)
    requires NoSpace(a)
    ensures SplitWs(a) == [a]
    decreases |a|
  {
    if a != [] {
      SplitWsWord(a[1..]);
      assert [a[0]] + a[1..] == a;
    }
  }

  /** `TrimStart` drops exactly a leading run of white space before a rest that does not start with white space. */
  lemma {:induction false} TrimStartRun(w: string, b: string)
    requires NonSpace(w) == "" && (b == [] || !IsSpace(b[0]))
    ensures TrimStart(w + b) == b
    decreases |w|
  {
    if w == [] {
      assert w + b == b;
    } else {
      var c := w[0];
      assert NonSpace(w) == (if IsSpace(c) then "" else [c]) + NonSpace(w[1..]);
      assert (w + b)[0] == w[0] && (w + b)[1..] == w[1..] + b;
      TrimStartRun(w[1..], b);
    }
  }

  /** A run of white space before a rest that does not start with white space: an empty piece, then the rest's pieces. */
  lemma SplitWsLeadingRun(w: string, b: string)
    requires w != [] && NonSpace(w) == "" && (b == [] || !IsSpace(b[0]))
    ensures SplitWs(w + b) == [""] + SplitWs(b)
  {
    var s := w + b;
    var c := w[0];
    assert NonSpace(w) == (if IsSpace(c) then "" else [c]) + NonSpace(w[1..]);
    assert s != [] && s[0] == w[0] && IsSpace(s[0]);
    TrimStartRun(w, b);
    assert SplitWs(s) == [""] + SplitWs(TrimStart(s));
  }

  /** A first character that is not white space joins the first piece of the rest. */
  lemma SplitWsCons(c: char, t: string)
    requires !IsSpace(c)
    ensures SplitWs([c] + t) == [[c] + SplitWs(t)[0]] + SplitWs(t)[1..]
  {
    assert ([c] + t)[0] == c && ([c] + t)[1..] == t;
  }

  /**
   * A word, a run of white space of any length and kind, and a rest that does
   * not start with white space: the word is the first piece and the rest's
   * pieces follow. With `SplitWsWord` this fixes `split(/\s+/)` on every
   * string: the pieces are the maximal runs of non-space characters, cut at
   * each maximal run of white space.
   */
  lemma {:induction false} SplitWsSpace(a: string, w: string, b: string)
    requires NoSpace(a) && w != [] && NonSpace(w) == "" && (b == [] || !IsSpace(b[0]))
    ensures SplitWs(a + w + b) == [a] + SplitWs(b)
    decreases |a|
  {
    if a == [] {
      assert a + w + b == w + b;
      SplitWsLeadingRun(w, b);
    } else {
      var t := a[1..] + w + b;
      assert a + w + b == [a[0]] + t;
      SplitWsSpace(a[1..], w, b);
      SplitWsCons(a[0], t);
      assert [a[0]] + a[1..] == a;
    }
  }

  lemma SplitWsHeadNonEmpty(s: string)
    requires s != [] && !IsSpace(s[0])
    ensures SplitWs(s)[0] != ""
  {
    var rest := SplitWs(s[1..]);
    assert SplitWs(s)[0] == [s[0]] + rest[0];
  }

  lemma {:induction false} NonSpaceOfTrimEnd(s: string)
    ensures NonSpace(TrimEnd(s)) == NonSpace(s)
    decreases |s|
  {
    if s != [] && IsSpace(s[|s| - 1]) {
      var p := s[..|s| - 1];
      NonSpaceOfTrimEnd(p);
      NonSpaceAppend(p, [s[|s| - 1]]);
      assert s == p + [s[|s| - 1]];
    }
  }

  lemma {:induction false} NonSpaceAppend(a: string, b: string)
    ensures NonSpace(a + b) == NonSpace(a) + NonSpace(b)
    decreases |a|
  {
    if a != [] {
      assert (a + b)[1..] == a[1..] + b;
      NonSpaceAppend(a[1..], b);
    } else {
      assert a + b == b;
    }
  }

  lemma NonSpaceOfTrim(s: string)
    ensures NonSpace(Trim(s)) == NonSpace(s)
  {
    NonSpaceOfTrimEnd(TrimStart(s));
    NonSpaceOfTrimStart(s);
  }

  lemma {:induction false} NonSpaceOfTrimStart(s: string)
    ensures NonSpace(TrimStart(s)) == NonSpace(s)
    decreases |s|
  {
    if s != [] && IsSpace(s[0]) {
      NonSpaceOfTrimStart(s[1..]);
    }
  }

  // ---------------------------------------------------------------------------
  // Department paths

  /**
   * One step of the running path: `currentPath ? currentPath + '/' + part : part`
   * (an empty current path is falsy).
   */
  function JoinPath(prefix: string, part: string): string {
    if prefix == "" then part else prefix + "/" + part
  }

  /**
   * The running path after each level: entry i is parts[0..i] joined step by
   * step, the path the walk looks up at level i.
   */
  function LevelPaths(parts: seq<string>): (paths: seq<string>)
    ensures |paths| == |parts|
    decreases |parts|
  {
    if parts == [] then []
    else
      var prev := LevelPaths(parts[..|parts| - 1]);
      prev + [JoinPath(if prev == [] then "" else prev[|prev| - 1], parts[|parts| - 1])]
  }

  /** The running paths of a prefix are the prefix of the running paths. */
  lemma {:induction false} LevelPathsPrefix(parts: seq<string>, m: nat)
    requires m <= |parts|
    ensures LevelPaths(parts[..m]) == LevelPaths(parts)[..m]
    decreases |parts|
  {
    if m < |parts| {
      var init := parts[..|parts| - 1];
      LevelPathsPrefix(init, m);
      assert init[..m] == parts[..m];
      assert LevelPaths(parts)[..|parts| - 1] == LevelPaths(init);
    } else {
      assert parts[..m] == parts;
    }
  }

  /** Level i's path extends level i - 1's path by piece i. */
  lemma LevelPathsStep(parts: seq<string>, i: nat)
    requires i < |parts|
    ensures LevelPaths(parts)[i] == JoinPath(if i == 0 then "" else LevelPaths(parts)[i - 1], parts[i])
  {
    LevelPathsPrefix(parts, i + 1);
    LevelPathsPrefix(parts, i);
    var pre := parts[..i + 1];
    assert pre[..|pre| - 1] == parts[..i];
    assert pre[|pre| - 1] == parts[i];
  }

  /** Reference definition: the pieces joined with "/" between neighbours. */
  function JoinWithSlash(parts: seq<string>): string
    requires |parts| >= 1
  {
    if |parts| == 1 then parts[0] else JoinWithSlash(parts[..|parts| - 1]) + "/" + parts[|parts| - 1]
  }

  /** With non-empty pieces, the running path is the ordinary "/"-join of the prefix. */
  lemma {:induction false} LevelPathIsJoin(parts: seq<string>, i: nat)
    requires i < |parts|
    requires forall k :: 0 <= k < |parts| ==> parts[k] != ""
    ensures LevelPaths(parts)[i] == JoinWithSlash(parts[..i + 1])
    ensures |LevelPaths(parts)[i]| >= i + 1
  {
    LevelPathsStep(parts, i);
    if i > 0 {
      LevelPathIsJoin(parts, i - 1);
      assert parts[..i + 1][..i] == parts[..i];
    }
  }

  /** With non-empty pieces the running paths strictly grow from level to level. */
  lemma {:induction false} LevelPathsGrow(parts: seq<string>, i: nat, j: nat)
    requires i < j < |parts|
    requires forall k :: 0 <= k < |parts| ==> parts[k] != ""
    ensures |LevelPaths(parts)[i]| < |LevelPaths(parts)[j]|
    decreases j
  {
    LevelPathsStep(parts, j);
    LevelPathIsJoin(parts, j - 1);
    if i < j - 1 {
      LevelPathsGrow(parts, i, j - 1);
    }
  }

  /** The levels of a split department cell have pairwise different paths. */
  lemma LevelPathsDistinct(parts: seq<string>, i: nat)
    requires Segments(parts) && i < |parts|
    ensures forall j :: 0 <= j < |parts| && j != i ==> LevelPaths(parts)[j] != LevelPaths(parts)[i]
  {
    forall j | 0 <= j < |parts| && j != i ensures LevelPaths(parts)[j] != LevelPaths(parts)[i] {
      if j < i {
        LevelPathsGrow(parts, j, i);
      } else {
        LevelPathsGrow(parts, i, j);
      }
    }
  }
}
