/** String operations of the Python and JavaScript runtimes that the scripts rely on:
    whitespace trimming, splitting on a separator, substring search, replace-all and
    the decimal rendering of a number. Strings are sequences of Unicode scalar values. */
module Text {

  /** Python's `str.isspace()`: the characters `str.strip()` and `str.rstrip()` remove.
      Among ASCII characters these are the space, `\t` to `\r`, and the four separators
      U+001C to U+001F. */
  function IsPythonSpace(c: char): (b: bool)
    ensures c < '\U{80}' ==> (b <==> c == ' ' || '\t' <= c <= '\r' || '\U{1C}' <= c <= '\U{1F}')
    ensures b ==> !IsDigit(c) && c != ','
  {
    || ('\t' <= c <= '\r')
    || ('\U{1C}' <= c <= ' ')
    || c == '\U{85}' || c == '\U{A0}' || c == '\U{1680}'
    || ('\U{2000}' <= c <= '\U{200A}')
    || c == '\U{2028}' || c == '\U{2029}' || c == '\U{202F}' || c == '\U{205F}' || c == '\U{3000}'
  }

  /** ECMAScript WhiteSpace and LineTerminator: the characters `String.prototype.trimEnd` removes.
      Unlike Python it keeps U+001C..U+001F and U+0085, and it removes U+FEFF. */
  function IsJsSpace(c: char): (b: bool)
    ensures b <==>
      (IsPythonSpace(c) && !('\U{1C}' <= c <= '\U{1F}') && c != '\U{85}') || c == '\U{FEFF}'
  {
    || ('\t' <= c <= '\r')
    || c == ' ' || c == '\U{A0}' || c == '\U{1680}'
    || ('\U{2000}' <= c <= '\U{200A}')
    || c == '\U{2028}' || c == '\U{2029}' || c == '\U{202F}' || c == '\U{205F}' || c == '\U{3000}'
    || c == '\U{FEFF}'
  }

  /** The longest prefix of `s` that does not end in a space character. */
  function TrimEnd(s: string, isSpace: char -> bool): (r: string)
    ensures r <= s
    ensures |r| == 0 || !isSpace(r[|r| - 1])
    ensures forall i :: |r| <= i < |s| ==> isSpace(s[i])
    decreases |s|
  {
    if |s| > 0 && isSpace(s[|s| - 1]) then TrimEnd(s[..|s| - 1], isSpace) else s
  }

  /** The longest suffix of `s` that does not start with a space character. */
  function TrimStart(s: string, isSpace: char -> bool): (r: string)
    ensures |r| <= |s| && r == s[|s| - |r|..]
    ensures |r| == 0 || !isSpace(r[0])
    ensures forall i :: 0 <= i < |s| - |r| ==> isSpace(s[i])
    decreases |s|
  {
    if |s| > 0 && isSpace(s[0]) then TrimStart(s[1..], isSpace) else s
  }

  /** `r` is `s` with the space characters at both ends removed: `s` is some spaces,
      then `r`, then some spaces, and `r` neither starts nor ends with a space. */
  predicate Stripped(s: string, r: string, isSpace: char -> bool) {
    && (|r| == 0 || (!isSpace(r[0]) && !isSpace(r[|r| - 1])))
    && exists k: nat | k <= |s| :: OccursAt(s, r, k)
         && (forall j :: 0 <= j < k ==> isSpace(s[j]))
         && (forall j :: k + |r| <= j < |s| ==> isSpace(s[j]))
  }

  /** A string has only one stripped form. */
  lemma StrippedUnique(s: string, r1: string, r2: string, isSpace: char -> bool)
    requires Stripped(s, r1, isSpace) && Stripped(s, r2, isSpace)
    ensures r1 == r2
  {
    var k1: nat :| OccursAt(s, r1, k1)
      && (forall j :: 0 <= j < k1 ==> isSpace(s[j])) && (forall j :: k1 + |r1| <= j < |s| ==> isSpace(s[j]));
    var k2: nat :| OccursAt(s, r2, k2)
      && (forall j :: 0 <= j < k2 ==> isSpace(s[j])) && (forall j :: k2 + |r2| <= j < |s| ==> isSpace(s[j]));
    if |r1| > 0 && |r2| > 0 {
      assert s[k1] == s[k1..k1 + |r1|][0] == r1[0];
      assert s[k2] == s[k2..k2 + |r2|][0] == r2[0];
      assert !isSpace(s[k1]) && !isSpace(s[k2]);
      assert k1 == k2;
      var e1, e2 := k1 + |r1| - 1, k2 + |r2| - 1;
      assert s[e1] == s[k1..k1 + |r1|][|r1| - 1] == r1[|r1| - 1];
      assert s[e2] == s[k2..k2 + |r2|][|r2| - 1] == r2[|r2| - 1];
      assert !isSpace(s[e1]) && !isSpace(s[e2]);
      assert e1 == e2;
    }
  }

  /** Space characters removed from both ends, as Python's `str.strip()`. */
  function Strip(s: string, isSpace: char -> bool): (r: string)
    ensures Stripped(s, r, isSpace)
    ensures exists i: nat :: OccursAt(s, r, i)
  {
    var e := TrimEnd(s, isSpace);
    var r := TrimStart(e, isSpace);
    SuffixOfPrefixOccurs(s, e, r);
    TrimmedBothEnds(s, e, r, isSpace);
    r
  }

  /** Trimming the end and then the start leaves `s` stripped. */
  lemma TrimmedBothEnds(s: string, e: string, r: string, isSpace: char -> bool)
    requires e <= s && (|e| == 0 || !isSpace(e[|e| - 1]))
    requires forall i :: |e| <= i < |s| ==> isSpace(s[i])
    requires |r| <= |e| && r == e[|e| - |r|..] && (|r| == 0 || !isSpace(r[0]))
    requires forall i :: 0 <= i < |e| - |r| ==> isSpace(e[i])
    ensures Stripped(s, r, isSpace)
  {
    var k := |e| - |r|;
    SuffixOfPrefixOccurs(s, e, r);
    forall j | 0 <= j < k ensures isSpace(s[j]) {
      assert s[j] == e[j];
    }
    assert |r| == 0 || r[|r| - 1] == e[|e| - 1];
    assert k + |r| == |e|;
  }

  /** A suffix of a prefix of `s` occurs in `s` where the suffix starts. */
  lemma SuffixOfPrefixOccurs(s: string, e: string, r: string)
    requires e <= s && |r| <= |e| && r == e[|e| - |r|..]
    ensures OccursAt(s, r, |e| - |r|)
  {
    var k := |e| - |r|;
    forall j | 0 <= j < |r| ensures s[k..k + |r|][j] == r[j] {
      assert r[j] == e[k + j] == s[k + j];
    }
  }

  /** Stripping only removes characters, so it cannot introduce one. */
  lemma StripKeepsAbsentChar(s: string, isSpace: char -> bool, c: char)
    requires c !in s
    ensures c !in Strip(s, isSpace)
  {
    var r := Strip(s, isSpace);
    var i: nat :| OccursAt(s, r, i);
    forall j | 0 <= j < |r| ensures r[j] != c {
      assert r[j] == s[i + j];
    }
  }

  /** `s` cut at every `sep`, as Python's `s.split(sep)` for a one-character separator:
      there is always at least one part, and no part contains the separator. */
  function Split(s: string, sep: char): (parts: seq<string>)
    ensures |parts| >= 1
    ensures forall p :: p in parts ==> sep !in p
    decreases |s|
  {
    if |s| == 0 then [""]
    else
      var rest := Split(s[1..], sep);
      if s[0] == sep then [""] + rest else [[s[0]] + rest[0]] + rest[1..]
  }

  /** The parts glued together with `sep` between neighbours, as Python's `sep.join(parts)`. */
  function Join(parts: seq<string>, sep: char): string
  {
    if |parts| == 0 then ""
    else if |parts| == 1 then parts[0]
    else parts[0] + [sep] + Join(parts[1..], sep)
  }

  /** The join of non-empty parts starts with the first part's first character and ends
      with the last part's last character. */
  lemma {:induction false} JoinEdges(parts: seq<string>, sep: char)
    requires |parts| >= 1 && forall i :: 0 <= i < |parts| ==> |parts[i]| > 0
    ensures |Join(parts, sep)| > 0
    ensures Join(parts, sep)[0] == parts[0][0]
    ensures Join(parts, sep)[|Join(parts, sep)| - 1] == parts[|parts| - 1][|parts[|parts| - 1]| - 1]
    decreases |parts|
  {
    if |parts| > 1 {
      var tail := parts[1..];
      assert forall i :: 0 <= i < |tail| ==> tail[i] == parts[i + 1];
      JoinEdges(tail, sep);
      var rest := Join(tail, sep);
      var j := parts[0] + [sep] + rest;
      assert Join(parts, sep) == j;
      assert j[0] == parts[0][0];
      assert j[|j| - 1] == rest[|rest| - 1];
      assert tail[|tail| - 1] == parts[|parts| - 1];
    }
  }

  /** Joining the parts of a split gives back the original string. */
  lemma {:induction false} JoinSplit(s: string, sep: char)
    ensures Join(Split(s, sep), sep) == s
    decreases |s|
  {
    if |s| > 0 {
      var rest := Split(s[1..], sep);
      JoinSplit(s[1..], sep);
      if s[0] == sep {
        assert Join([""] + rest, sep) == "" + [sep] + Join(rest, sep);
      } else {
        var parts := [[s[0]] + rest[0]] + rest[1..];
        if |rest| == 1 {
          assert Join(parts, sep) == [s[0]] + rest[0];
        } else {
          assert parts[1..] == rest[1..];
          assert Join(rest, sep) == rest[0] + [sep] + Join(rest[1..], sep);
          assert Join(parts, sep) == ([s[0]] + rest[0]) + [sep] + Join(rest[1..], sep);
        }
      }
      assert s == [s[0]] + s[1..];
    }
  }

  /** Splitting a string that starts with separator-free `p` extends the first part by `p`. */
  lemma {:induction false} SplitAfterPlainPrefix(p: string, t: string, sep: char)
    requires sep !in p
    ensures Split(p + t, sep) == [p + Split(t, sep)[0]] + Split(t, sep)[1..]
    decreases |p|
  {
    if |p| > 0 {
      assert (p + t)[1..] == p[1..] + t;
      assert (p + t)[0] == p[0];
      SplitAfterPlainPrefix(p[1..], t, sep);
      assert [p[0]] + (p[1..] + Split(t, sep)[0]) == p + Split(t, sep)[0];
    } else {
      var parts := Split(t, sep);
      assert p + t == t;
      assert p + parts[0] == parts[0];
      assert parts == [parts[0]] + parts[1..];
    }
  }

  /** Splitting the join of separator-free parts gives back the parts. */
  lemma {:induction false} SplitJoin(parts: seq<string>, sep: char)
    requires |parts| >= 1
    requires forall p :: p in parts ==> sep !in p
    ensures Split(Join(parts, sep), sep) == parts
    decreases |parts|
  {
    if |parts| == 1 {
      SplitAfterPlainPrefix(parts[0], "", sep);
      assert parts[0] + "" == parts[0];
    } else {
      var t := Join(parts[1..], sep);
      SplitJoin(parts[1..], sep);
      assert Split([sep] + t, sep) == [""] + Split(t, sep) by {
        assert ([sep] + t)[1..] == t;
      }
      assert parts[0] + [sep] + t == parts[0] + ([sep] + t);
      SplitAfterPlainPrefix(parts[0], [sep] + t, sep);
      assert parts[0] + "" == parts[0];
      assert parts == [parts[0]] + parts[1..];
    }
  }

  /** `sub` occurs in `s` starting at index `i`. */
  predicate OccursAt(s: string, sub: string, i: nat) {
    i + |sub| <= |s| && s[i..i + |sub|] == sub
  }

  /** Python's `sub in s` and JavaScript's `s.includes(sub)`. */
  predicate Contains(s: string, sub: string) {
    exists i: nat | i <= |s| :: OccursAt(s, sub, i)
  }

  /** An occurrence in a part of a string is an occurrence in the whole. */
  lemma ContainsInConcat(a: string, b: string, sub: string)
    ensures Contains(a, sub) ==> Contains(a + b, sub)
    ensures Contains(b, sub) ==> Contains(a + b, sub)
  {
    if Contains(a, sub) {
      var i: nat :| i <= |a| && OccursAt(a, sub, i);
      assert (a + b)[i..i + |sub|] == a[i..i + |sub|];
      assert OccursAt(a + b, sub, i);
    }
    if Contains(b, sub) {
      var i: nat :| i <= |b| && OccursAt(b, sub, i);
      assert (a + b)[|a| + i..|a| + i + |sub|] == b[i..i + |sub|];
      assert OccursAt(a + b, sub, |a| + i);
    }
  }

  /** Python's `s.replace(pat, rep)`: a left-to-right scan that rewrites every
      non-overlapping occurrence of `pat` and copies everything else. A string without
      `pat` comes back unchanged; one with `pat` comes back containing `rep`. */
  function ReplaceAll(s: string, pat: string, rep: string): (r: string)
    requires |pat| > 0
    ensures !Contains(s, pat) ==> r == s
    ensures Contains(s, pat) ==> Contains(r, rep)
    decreases |s|
  {
    if |s| < |pat| then s
    else if s[..|pat|] == pat then
      var r := rep + ReplaceAll(s[|pat|..], pat, rep);
      assert OccursAt(s, pat, 0);
      assert OccursAt(r, rep, 0);
      r
    else
      var tail := ReplaceAll(s[1..], pat, rep);
      ShiftOccurrence(s, pat);
      ContainsInConcat([s[0]], tail, rep);
      assert s == [s[0]] + s[1..];
      [s[0]] + tail
  }

  /** When `pat` is not at the front of `s`, `s` contains it exactly when `s[1..]` does. */
  lemma ShiftOccurrence(s: string, pat: string)
    requires |s| >= |pat| > 0 && s[..|pat|] != pat
    ensures Contains(s, pat) <==> Contains(s[1..], pat)
  {
    if Contains(s, pat) {
      var i: nat :| i <= |s| && OccursAt(s, pat, i);
      assert i != 0;
      assert s[1..][i - 1..i - 1 + |pat|] == s[i..i + |pat|];
      assert OccursAt(s[1..], pat, i - 1);
    }
    if Contains(s[1..], pat) {
      var i: nat :| i <= |s[1..]| && OccursAt(s[1..], pat, i);
      assert s[i + 1..i + 1 + |pat|] == s[1..][i..i + |pat|];
      assert OccursAt(s, pat, i + 1);
    }
  }

  /** How many occurrences of `pat` the scan of `ReplaceAll` rewrites. */
  function Replacements(s: string, pat: string): nat
    requires |pat| > 0
    decreases |s|
  {
    if |s| < |pat| then 0
    else if s[..|pat|] == pat then 1 + Replacements(s[|pat|..], pat)
    else Replacements(s[1..], pat)
  }

  /** `ReplaceAll` rewrites at least one occurrence exactly when the pattern occurs. */
  lemma {:induction false} ReplacementsPositive(s: string, pat: string)
    requires |pat| > 0
    ensures Replacements(s, pat) > 0 <==> Contains(s, pat)
    decreases |s|
  {
    if |s| < |pat| {
    } else if s[..|pat|] == pat {
      assert OccursAt(s, pat, 0);
    } else {
      ShiftOccurrence(s, pat);
      ReplacementsPositive(s[1..], pat);
    }
  }

  /** `s` with every `c` left out, the other characters in order. */
  function Without(s: string, c: char): (r: string)
    ensures |r| <= |s|
    ensures c !in r
    ensures forall x :: x != c ==> (x in r <==> x in s)
    decreases |s|
  {
    if |s| == 0 then []
    else
      var rest := Without(s[1..], c);
      assert s == [s[0]] + s[1..];
      if s[0] == c then rest else [s[0]] + rest
  }

  /** Replacing a one-character pattern by nothing, as `color.replace("#", "")`, leaves out
      every occurrence of that character and keeps the others in order. */
  lemma {:induction false} ReplaceAllDeletesChar(s: string, c: char)
    ensures ReplaceAll(s, [c], "") == Without(s, c)
    decreases |s|
  {
    if |s| > 0 {
      ReplaceAllDeletesChar(s[1..], c);
      if s[0] == c {
        ReplaceAllAtMatch(s, [c], "");
      } else {
        assert s[..1] != [c];
      }
    }
  }

  /** What one character adds to the brace balance. */
  function BraceWeight(c: char): int {
    if c == '{' then 1 else if c == '}' then -1 else 0
  }

  /** Opening braces minus closing braces: zero for a string whose braces pair up. */
  function BraceBalance(s: string): int
    decreases |s|
  {
    if |s| == 0 then 0 else BraceBalance(s[..|s| - 1]) + BraceWeight(s[|s| - 1])
  }

  lemma SingleBraceBalance(c: char)
    ensures BraceBalance([c]) == BraceWeight(c)
  {
    assert [c][..0] == [];
  }

  /** No character of `s` is a brace. */
  predicate BraceFree(s: string) {
    forall i | 0 <= i < |s| :: s[i] != '{' && s[i] != '}'
  }

  lemma {:induction false} BraceFreeBalance(s: string)
    requires BraceFree(s)
    ensures BraceBalance(s) == 0
    decreases |s|
  {
    if |s| > 0 {
      BraceFreeBalance(s[..|s| - 1]);
    }
  }

  /** Brace balance adds up over concatenation. */
  lemma {:induction false} BraceBalanceConcat(a: string, b: string)
    ensures BraceBalance(a + b) == BraceBalance(a) + BraceBalance(b)
    decreases |b|
  {
    if |b| > 0 {
      BraceBalanceConcat(a, b[..|b| - 1]);
      assert (a + b)[..|a + b| - 1] == a + b[..|b| - 1];
    } else {
      assert a + b == a;
    }
  }

  /** `k` copies of `d` added up, kept apart from `*` so that proofs stay linear: no
      copies of nothing add to nothing, and copies of one count them. */
  function Times(k: nat, d: int): (r: int)
    ensures d == 0 ==> r == 0
    ensures d == 1 ==> r == k
  {
    if k == 0 then 0 else d + Times(k - 1, d)
  }

  /** Every rewrite swaps the braces of `pat` for those of `rep`, so the brace balance
      shifts by that difference once per replacement. */
  lemma {:induction false} ReplaceAllBraceBalance(s: string, pat: string, rep: string)
    requires |pat| > 0
    ensures BraceBalance(ReplaceAll(s, pat, rep))
         == BraceBalance(s) + Times(Replacements(s, pat), BraceBalance(rep) - BraceBalance(pat))
    decreases |s|
  {
    if |s| < |pat| {
    } else if s[..|pat|] == pat {
      ReplaceAllBraceBalance(s[|pat|..], pat, rep);
      MatchStepBalance(s, pat, rep);
    } else {
      ReplaceAllBraceBalance(s[1..], pat, rep);
      CopyStepBalance(s, pat, rep);
    }
  }

  /** A match at the front is rewritten and counted once. */
  lemma ReplaceAllAtMatch(s: string, pat: string, rep: string)
    requires 0 < |pat| <= |s| && s[..|pat|] == pat
    ensures ReplaceAll(s, pat, rep) == rep + ReplaceAll(s[|pat|..], pat, rep)
    ensures Replacements(s, pat) == 1 + Replacements(s[|pat|..], pat)
  {
  }

  /** The step of `ReplaceAllBraceBalance` where `pat` is rewritten at the front. */
  lemma MatchStepBalance(s: string, pat: string, rep: string)
    requires 0 < |pat| <= |s| && s[..|pat|] == pat
    requires BraceBalance(ReplaceAll(s[|pat|..], pat, rep))
          == BraceBalance(s[|pat|..]) + Times(Replacements(s[|pat|..], pat), BraceBalance(rep) - BraceBalance(pat))
    ensures BraceBalance(ReplaceAll(s, pat, rep))
         == BraceBalance(s) + Times(Replacements(s, pat), BraceBalance(rep) - BraceBalance(pat))
  {
    var rest := s[|pat|..];
    var tail := ReplaceAll(rest, pat, rep);
    var k := Replacements(rest, pat);
    var d := BraceBalance(rep) - BraceBalance(pat);
    ReplaceAllAtMatch(s, pat, rep);
    BraceBalanceConcat(rep, tail);
    BraceBalanceSplit(s, |pat|);
    TimesStep(Replacements(s, pat), k, d);
  }

  /** Brace balance adds up over the two sides of any cut. */
  lemma BraceBalanceSplit(s: string, i: int)
    requires 0 <= i <= |s|
    ensures BraceBalance(s) == BraceBalance(s[..i]) + BraceBalance(s[i..])
  {
    BraceBalanceConcat(s[..i], s[i..]);
    assert s[..i] + s[i..] == s;
  }

  /** One more copy adds `d`. */
  lemma TimesStep(k': nat, k: nat, d: int)
    requires k' == k + 1
    ensures Times(k', d) == d + Times(k, d)
  {
  }

  /** The step of `ReplaceAllBraceBalance` where the first character is copied. */
  lemma CopyStepBalance(s: string, pat: string, rep: string)
    requires 0 < |pat| <= |s| && s[..|pat|] != pat
    requires BraceBalance(ReplaceAll(s[1..], pat, rep))
          == BraceBalance(s[1..]) + Times(Replacements(s[1..], pat), BraceBalance(rep) - BraceBalance(pat))
    ensures BraceBalance(ReplaceAll(s, pat, rep))
         == BraceBalance(s) + Times(Replacements(s, pat), BraceBalance(rep) - BraceBalance(pat))
  {
    var rest := s[1..];
    var tail := ReplaceAll(rest, pat, rep);
    assert ReplaceAll(s, pat, rep) == [s[0]] + tail;
    BraceBalanceConcat([s[0]], tail);
    assert s == [s[0]] + rest;
    BraceBalanceConcat([s[0]], rest);
  }

  /** The characters `'0'` to `'9'`. */
  predicate IsDigit(c: char) {
    '0' <= c <= '9'
  }

  function DigitChar(d: nat): (c: char)
    requires d < 10
    ensures IsDigit(c) && c as int - '0' as int == d
  {
    (d + '0' as int) as char
  }

  /** The decimal rendering of a natural number, as Python's `str(n)` or an f-string. */
  function Decimal(n: nat): (s: string)
    ensures |s| >= 1
    ensures forall i :: 0 <= i < |s| ==> IsDigit(s[i])
    decreases n
  {
    if n < 10 then [DigitChar(n)] else Decimal(n / 10) + [DigitChar(n % 10)]
  }

  /** Reads a string of digits back as a number (the inverse of `Decimal`). */
  function ParseDecimal(s: string): nat
    requires forall i :: 0 <= i < |s| ==> IsDigit(s[i])
    decreases |s|
  {
    if |s| == 0 then 0
    else
      assert IsDigit(s[|s| - 1]);
      ParseDecimal(s[..|s| - 1]) * 10 + (s[|s| - 1] as int - '0' as int)
  }

  /** Parsing the decimal rendering of `n` gives back `n`. */
  lemma {:induction false} ParseDecimalInverts(n: nat)
    ensures ParseDecimal(Decimal(n)) == n
    decreases n
  {
    if n >= 10 {
      var s := Decimal(n);
      ParseDecimalInverts(n / 10);
      assert s[..|s| - 1] == Decimal(n / 10);
    }
  }

  /** Different numbers render differently. */
  lemma DecimalInjective(a: nat, b: nat)
    requires Decimal(a) == Decimal(b)
    ensures a == b
  {
    ParseDecimalInverts(a);
    ParseDecimalInverts(b);
  }

  /** The rendering of any integer, as Python's `str(n)`: a minus sign before the digits
      of a negative number. */
  function IntText(n: int): (s: string)
    ensures |s| >= 1
    ensures forall i :: 0 <= i < |s| ==> IsDigit(s[i]) || s[i] == '-'
  {
    if n < 0 then "-" + Decimal(-n) else Decimal(n)
  }

  /** Different integers render differently. */
  lemma IntTextInjective(a: int, b: int)
    requires IntText(a) == IntText(b)
    ensures a == b
  {
    if a < 0 && b < 0 {
      assert IntText(a)[1..] == Decimal(-a);
      assert IntText(b)[1..] == Decimal(-b);
      DecimalInjective(-a, -b);
    } else if a >= 0 && b >= 0 {
      DecimalInjective(a, b);
    } else {
      IntTextSign(a);
      IntTextSign(b);
    }
  }

  /** The rendering starts with a minus sign exactly for a negative number. */
  lemma IntTextSign(n: int)
    ensures IntText(n)[0] == '-' <==> n < 0
  {
    if n >= 0 {
      assert IsDigit(Decimal(n)[0]);
    }
  }

  /** A string with no space character at either end is its own strip. */
  lemma StripUnpadded(s: string, isSpace: char -> bool)
    requires |s| == 0 || (!isSpace(s[0]) && !isSpace(s[|s| - 1]))
    ensures Strip(s, isSpace) == s
  {
    assert TrimEnd(s, isSpace) == s;
    assert TrimStart(s, isSpace) == s;
  }
}
