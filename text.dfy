/** The two pieces of Python string handling the analyzer relies on:
    `str.strip()` on every console line it reads, and `int()` on the two
    goal values of a new match. */
module Text {
  import opened Options

  /** The characters Python's `str.isspace()` accepts. */
  predicate IsSpace(c: char)
  {
    c == ' ' || '\t' <= c <= '\r' || '\U{1c}' <= c <= '\U{1f}'
    || c == '\U{85}' || c == '\U{a0}' || c == '\U{1680}' || '\U{2000}' <= c <= '\U{200a}'
    || c == '\U{2028}' || c == '\U{2029}' || c == '\U{202f}' || c == '\U{205f}' || c == '\U{3000}'
  }

  /** Which whitespace is cut off: `str.strip()` drops every `isspace()`
      character, while `int()` skips every one except the four ASCII
      separators U+001C to U+001F (its ASCII test is C's `isspace`). */
  datatype Padding = StrSpace | IntSpace

  predicate IsPadding(p: Padding, c: char)
  {
    IsSpace(c) && (p == StrSpace || !('\U{1c}' <= c <= '\U{1f}'))
  }

  predicate AllPadding(p: Padding, s: string)
  {
    forall i :: 0 <= i < |s| ==> IsPadding(p, s[i])
  }

  /** Neither end of `s` is padding. */
  predicate Unpadded(p: Padding, s: string)
  {
    s == [] || (!IsPadding(p, s[0]) && !IsPadding(p, s[|s| - 1]))
  }

  /** The number of padding characters `s` starts with. */
  function LeadingPadding(p: Padding, s: string): (n: nat)
    ensures n <= |s|
    ensures forall i :: 0 <= i < n ==> IsPadding(p, s[i])
    ensures n < |s| ==> !IsPadding(p, s[n])
  {
    if s != [] && IsPadding(p, s[0]) then 1 + LeadingPadding(p, s[1..]) else 0
  }

  /** The number of padding characters `s` ends with. */
  function TrailingPadding(p: Padding, s: string): (n: nat)
    ensures n <= |s|
    ensures forall i :: |s| - n <= i < |s| ==> IsPadding(p, s[i])
    ensures n < |s| ==> !IsPadding(p, s[|s| - 1 - n])
  {
    if s != [] && IsPadding(p, s[|s| - 1]) then 1 + TrailingPadding(p, s[..|s| - 1]) else 0
  }

  /** `s` without its leading and trailing padding; `Strip(StrSpace, s)` is
      `s.strip()`. */
  function Strip(p: Padding, s: string): (r: string)
    ensures |r| <= |s| && Unpadded(p, r)
  {
    var lead := LeadingPadding(p, s);
    if lead == |s| then []
    else
      var trail := TrailingPadding(p, s);
      assert lead < |s| - trail;
      s[lead..|s| - trail]
  }

  /** What Strip keeps is a slice of `s`, and what it cuts off on either side
      is padding. */
  lemma StripSlices(p: Padding, s: string) returns (lead: string, tail: string)
    ensures s == lead + Strip(p, s) + tail
    ensures AllPadding(p, lead) && AllPadding(p, tail)
  {
    var k := LeadingPadding(p, s);
    var r := Strip(p, s);
    if k == |s| {
      lead, tail := s, [];
      assert s == lead + r + tail;
    } else {
      var trail := TrailingPadding(p, s);
      lead, tail := s[..k], s[|s| - trail..];
      assert r == s[k..|s| - trail];
      assert s == lead + r + tail;
    }
  }

  lemma PaddingJoin(p: Padding, a: string, b: string)
    requires AllPadding(p, a) && AllPadding(p, b)
    ensures AllPadding(p, a + b)
  {
    assert forall i :: |a| <= i < |a + b| ==> (a + b)[i] == b[i - |a|];
  }

  /** Strip is determined by what it keeps: padding `m` on both sides and
      stripping gives `m` back whenever `m` itself has no padding at its
      ends. */
  lemma StripUnique(p: Padding, before: string, m: string, after: string)
    requires AllPadding(p, before) && AllPadding(p, after) && Unpadded(p, m)
    ensures Strip(p, before + m + after) == m
  {
    var s := before + m + after;
    if m == [] {
      assert s == before + after;
      PaddingJoin(p, before, after);
      var n := LeadingPadding(p, s);
      assert n == |s|;
    } else {
      assert s[|before|] == m[0] && s[|s| - 1 - |after|] == m[|m| - 1];
      var lead := LeadingPadding(p, s);
      assert lead == |before|;
      var trail := TrailingPadding(p, s);
      assert trail == |after|;
      assert s[|before|..|s| - |after|] == m;
    }
  }

  /** A line with no padding at either end strips to itself. */
  lemma StripKeeps(p: Padding, m: string)
    requires Unpadded(p, m)
    ensures Strip(p, m) == m
  {
    assert [] + m + [] == m;
    StripUnique(p, [], m, []);
  }

  /** Stripping twice is stripping once. */
  lemma StripIdempotent(p: Padding, s: string)
    ensures Strip(p, Strip(p, s)) == Strip(p, s)
  {
    StripKeeps(p, Strip(p, s));
  }

  lemma Regroup(a: string, b: string, c: string, d: string, e: string)
    ensures a + (b + c + d) + e == (a + b) + c + (d + e)
  {
  }

  /** Padding added around a line does not change what it strips to. */
  lemma StripIgnoresPadding(p: Padding, before: string, s: string, after: string)
    requires AllPadding(p, before) && AllPadding(p, after)
    ensures Strip(p, before + s + after) == Strip(p, s)
  {
    var t := Strip(p, s);
    var lead, tail := StripSlices(p, s);
    Regroup(before, lead, t, tail, after);
    PaddingJoin(p, before, lead);
    PaddingJoin(p, tail, after);
    StripUnique(p, before + lead, t, tail + after);
  }

  predicate IsDigit(c: char)
  {
    '0' <= c <= '9'
  }

  function DigitValue(c: char): nat
    requires IsDigit(c)
  {
    c as int - '0' as int
  }

  function DigitChar(d: nat): (c: char)
    requires d < 10
    ensures IsDigit(c) && DigitValue(c) == d
  {
    ('0' as int + d) as char
  }

  /** Reads the unsigned part of a base-10 literal the way `int()` does:
      ASCII digits, where a single underscore may stand between two digits. */
  function ParseNumeral(s: string): (r: Option<nat>)
    decreases |s|
  {
    if s == [] || !IsDigit(s[|s| - 1]) then None
    else if |s| == 1 then Some(DigitValue(s[0]))
    else
      var init := if s[|s| - 2] == '_' then s[..|s| - 2] else s[..|s| - 1];
      match ParseNumeral(init)
      case None => None
      case Some(v) => Some(10 * v + DigitValue(s[|s| - 1]))
  }

  /** Python's `int(s)` on a string: surrounding whitespace (`IntSpace`)
      is ignored, an optional `+` or `-` sign comes first, then the numeral;
      anything else is a ValueError, here `None`. */
  function ParseInt(s: string): (r: Option<int>)
    ensures var t := Strip(IntSpace, s);
      var signed := t != [] && (t[0] == '+' || t[0] == '-');
      var u := if signed then t[1..] else t;
      && (r.Some? <==> IsNumeral(u))
      && (r.Some? ==> AllDigits(Digits(u))
                      && r.value == if signed && t[0] == '-' then -(DecimalValue(Digits(u)) as int) else DecimalValue(Digits(u)))
  {
    var t := Strip(IntSpace, s);
    ParseNumeralMeans(if t != [] && (t[0] == '+' || t[0] == '-') then t[1..] else t);
    ParseSigned(t)
  }

  /** A numeral after an optional sign, with nothing around it. */
  function ParseSigned(t: string): (r: Option<int>)
  {
    if t != [] && (t[0] == '+' || t[0] == '-') then
      match ParseNumeral(t[1..])
      case None => None
      case Some(n) =>
        var m: int := n;
        Some(if t[0] == '-' then -m else m)
    else
      ParseNumeral(t)
  }

  /** The numerals `int()` accepts, stated without recursion: every
      character is a digit, or an underscore standing between two digits. */
  ghost predicate IsNumeral(s: string)
  {
    && |s| > 0
    && forall i {:trigger s[i]} :: 0 <= i < |s| ==>
         IsDigit(s[i]) || (s[i] == '_' && 0 < i < |s| - 1 && IsDigit(s[i - 1]) && IsDigit(s[i + 1]))
  }

  /** The digits of `s`, underscores dropped. */
  function Digits(s: string): (d: string)
  {
    if s == [] then []
    else Digits(s[..|s| - 1]) + (if s[|s| - 1] == '_' then [] else [s[|s| - 1]])
  }

  /** The value of a string of decimal digits, most significant first. */
  function DecimalValue(d: string): nat
    requires forall i :: 0 <= i < |d| ==> IsDigit(d[i])
  {
    if d == [] then 0 else 10 * DecimalValue(d[..|d| - 1]) + DigitValue(d[|d| - 1])
  }

  predicate AllDigits(d: string)
  {
    forall i :: 0 <= i < |d| ==> IsDigit(d[i])
  }

  lemma {:induction false} DigitsAreDigits(s: string)
    requires forall i :: 0 <= i < |s| ==> IsDigit(s[i]) || s[i] == '_'
    ensures AllDigits(Digits(s))
    decreases |s|
  {
    if s != [] {
      DigitsAreDigits(s[..|s| - 1]);
    }
  }

  lemma DecimalValueSnoc(d: string, c: char)
    requires AllDigits(d) && IsDigit(c)
    ensures AllDigits(d + [c]) && DecimalValue(d + [c]) == 10 * DecimalValue(d) + DigitValue(c)
  {
    assert (d + [c])[..|d + [c]| - 1] == d;
  }

  lemma NumeralAfterUnderscore(init: string, c: char)
    requires IsDigit(c)
    ensures IsNumeral(init + ['_', c]) <==> IsNumeral(init)
  {
    var s := init + ['_', c];
    if IsNumeral(s) {
      assert s[|s| - 2] == '_';
      forall i | 0 <= i < |init|
        ensures IsDigit(init[i]) || (init[i] == '_' && 0 < i < |init| - 1 && IsDigit(init[i - 1]) && IsDigit(init[i + 1]))
      {
        assert init[i] == s[i];
        if i > 0 { assert init[i - 1] == s[i - 1]; }
        if i < |init| - 1 { assert init[i + 1] == s[i + 1]; }
        if i == |init| - 1 { assert s[i + 1] == '_'; }
      }
    }
    if IsNumeral(init) {
      forall i | 0 <= i < |s|
        ensures IsDigit(s[i]) || (s[i] == '_' && 0 < i < |s| - 1 && IsDigit(s[i - 1]) && IsDigit(s[i + 1]))
      {
        if i < |init| {
          assert s[i] == init[i];
          if i > 0 { assert s[i - 1] == init[i - 1]; }
          if i < |init| - 1 { assert s[i + 1] == init[i + 1]; }
        } else if i == |init| {
          assert s[i - 1] == init[|init| - 1];
        }
      }
    }
  }

  lemma NumeralAfterDigit(init: string, c: char)
    requires IsDigit(c) && init != [] && init[|init| - 1] != '_'
    ensures IsNumeral(init + [c]) <==> IsNumeral(init)
  {
    var s := init + [c];
    if IsNumeral(s) {
      forall i | 0 <= i < |init|
        ensures IsDigit(init[i]) || (init[i] == '_' && 0 < i < |init| - 1 && IsDigit(init[i - 1]) && IsDigit(init[i + 1]))
      {
        assert init[i] == s[i];
        if i > 0 { assert init[i - 1] == s[i - 1]; }
        if i < |init| - 1 { assert init[i + 1] == s[i + 1]; }
      }
    }
    if IsNumeral(init) {
      forall i | 0 <= i < |s|
        ensures IsDigit(s[i]) || (s[i] == '_' && 0 < i < |s| - 1 && IsDigit(s[i - 1]) && IsDigit(s[i + 1]))
      {
        if i < |init| {
          assert s[i] == init[i];
          if i > 0 { assert s[i - 1] == init[i - 1]; }
          assert s[i + 1] == if i + 1 < |init| then init[i + 1] else c;
        }
      }
    }
  }

  /** One step of ParseNumeral: the last digit, after an optional underscore,
      extends the numeral before it. */
  lemma ParseNumeralStep(init: string, sep: string, c: char)
    requires IsDigit(c) && (sep == [] || sep == ['_'])
    requires init != [] && (sep == [] ==> init[|init| - 1] != '_')
    ensures ParseNumeral(init + sep + [c]) ==
      match ParseNumeral(init)
      case None => None
      case Some(v) => Some(10 * v + DigitValue(c))
  {
    var s := init + sep + [c];
    assert s[|s| - 1] == c;
    if sep == [] {
      assert s[|s| - 2] == init[|init| - 1];
      assert s[..|s| - 1] == init;
    } else {
      assert s[|s| - 2] == '_';
      assert s[..|s| - 2] == init;
    }
  }

  /** ParseNumeral accepts `s` exactly when it is a numeral, and then reads
      the digits that remain once the underscores are dropped, in base 10. */
  ghost predicate ReadsNumeral(s: string)
  {
    && (ParseNumeral(s).Some? <==> IsNumeral(s))
    && (IsNumeral(s) ==> AllDigits(Digits(s)) && ParseNumeral(s) == Some(DecimalValue(Digits(s))))
  }

  lemma {:induction false} ParseNumeralMeans(s: string)
    ensures ReadsNumeral(s)
    decreases |s|
  {
    if s == [] || !IsDigit(s[|s| - 1]) {
      return;
    }
    var c := s[|s| - 1];
    if |s| == 1 {
      assert Digits(s) == Digits([]) + [c];
      assert [c][..0] == [];
      return;
    }
    if |s| == 2 && s[0] == '_' {
      assert !IsDigit(s[0]);
      return;
    }
    var sep := if s[|s| - 2] == '_' then ['_'] else [];
    var init := s[..|s| - 1 - |sep|];
    assert s == init + sep + [c];
    ParseNumeralMeans(init);
    ReadsNumeralStep(init, sep, c);
  }

  lemma ReadsNumeralStep(init: string, sep: string, c: char)
    requires IsDigit(c) && (sep == [] || sep == ['_'])
    requires init != [] && (sep == [] ==> init[|init| - 1] != '_')
    requires ReadsNumeral(init)
    ensures ReadsNumeral(init + sep + [c])
  {
    var s := init + sep + [c];
    ParseNumeralStep(init, sep, c);
    assert ParseNumeral(s).Some? <==> ParseNumeral(init).Some?;
    DigitsStep(init, sep, c);
    if sep == [] {
      assert s == init + [c];
      NumeralAfterDigit(init, c);
    } else {
      assert s == init + ['_', c];
      NumeralAfterUnderscore(init, c);
    }
    if IsNumeral(init) {
      assert forall i :: 0 <= i < |init| ==> IsDigit(init[i]) || init[i] == '_';
      DigitsAreDigits(init);
      DecimalValueSnoc(Digits(init), c);
    }
  }

  lemma DigitsStep(init: string, sep: string, c: char)
    requires IsDigit(c) && (sep == [] || sep == ['_'])
    ensures Digits(init + sep + [c]) == Digits(init) + [c]
  {
    var s := init + sep + [c];
    var u := init + sep;
    assert s[..|s| - 1] == u && s[|s| - 1] == c;
    assert Digits(s) == Digits(u) + [c];
    if sep != [] {
      assert u[..|u| - 1] == init;
      assert u[|u| - 1] == '_';
      assert Digits(u) == Digits(init);
    } else {
      assert u == init;
    }
  }

  /** `str(n)` for a non-negative `n`: its decimal digits, no leading zero. */
  function ShowNat(n: nat): (d: string)
    ensures |d| > 0 && AllDigits(d)
  {
    if n < 10 then [DigitChar(n)] else ShowNat(n / 10) + [DigitChar(n % 10)]
  }

  /** `str(n)`: a minus sign in front of the digits of a negative number. */
  function ShowInt(n: int): (d: string)
  {
    if n < 0 then "-" + ShowNat(-n) else ShowNat(n)
  }

  lemma {:induction false} ParseNumeralShowNat(n: nat)
    ensures ParseNumeral(ShowNat(n)) == Some(n)
  {
    var d := ShowNat(n);
    if n >= 10 {
      ParseNumeralShowNat(n / 10);
      assert d[..|d| - 1] == ShowNat(n / 10);
    }
  }

  lemma ShowIntStripped(n: int)
    ensures Strip(IntSpace, ShowInt(n)) == ShowInt(n)
  {
    var d := ShowInt(n);
    assert d[0] == '-' || IsDigit(d[0]);
    StripKeeps(IntSpace, d);
  }

  lemma ParseSignedShowInt(n: int)
    ensures ParseSigned(ShowInt(n)) == Some(n)
  {
    var d := ShowInt(n);
    if n < 0 {
      assert d[1..] == ShowNat(-n);
      ParseNumeralShowNat(-n);
    } else {
      assert IsDigit(d[0]);
      ParseNumeralShowNat(n);
    }
  }

  /** `int()` reads back what `str()` writes, whatever whitespace it skips
      surrounds it. */
  lemma ParseIntShowInt(before: string, n: int, after: string)
    requires AllPadding(IntSpace, before) && AllPadding(IntSpace, after)
    ensures ParseInt(before + ShowInt(n) + after) == Some(n)
  {
    var d := ShowInt(n);
    ShowIntStripped(n);
    StripIgnoresPadding(IntSpace, before, d, after);
    ParseSignedShowInt(n);
  }

  lemma UnsignedNumeral(t: string)
    requires t != [] && IsDigit(t[0])
    ensures ParseSigned(t) == ParseNumeral(t)
  {
  }

  /** `int()` rejects a word. */
  lemma ParseIntRejectsWord()
    ensures ParseInt("abc") == None
  {
    StripKeeps(IntSpace, "abc");
  }

  /** `int()` rejects whitespace between the sign and the digits. */
  lemma ParseIntRejectsSpacedSign()
    ensures ParseInt("- 5") == None
  {
    StripKeeps(IntSpace, "- 5");
    assert ParseNumeral(" 5") == None;
  }

  /** `int()` rejects two underscores in a row. */
  lemma ParseIntRejectsDoubleUnderscore()
    ensures ParseInt("1__0") == None
  {
    StripKeeps(IntSpace, "1__0");
    assert ParseNumeral("1_") == None;
  }

  /** `int()` accepts a sign with whitespace around the number. */
  lemma ParseIntAcceptsPadding()
    ensures ParseInt(" +3\n") == Some(3)
  {
    assert " +3\n" == " " + "+3" + "\n";
    StripUnique(IntSpace, " ", "+3", "\n");
    assert ParseNumeral("3") == Some(3);
  }

  /** `int()` accepts an underscore between digits. */
  lemma ParseIntAcceptsUnderscore()
    ensures ParseInt("1_000") == Some(1000)
  {
    StripKeeps(IntSpace, "1_000");
    assert Strip(IntSpace, "1_000") == "1_000";
    assert ParseNumeral("1") == Some(1);
    assert ParseNumeral("1_0") == Some(10);
    assert ParseNumeral("1_00") == Some(100);
    assert "1_000"[..4] == "1_00";
    assert ParseNumeral("1_000") == Some(1000);
    UnsignedNumeral("1_000");
  }

  /** `int()` does not skip the ASCII separators U+001C to U+001F, although
      `str.strip()` drops them: a file separator before the goals is an
      invalid number. */
  lemma ParseIntRejectsSeparator()
    ensures Strip(StrSpace, "\U{1c}5") == "5"
    ensures ParseInt("\U{1c}5") == None
  {
    assert "\U{1c}5" == "\U{1c}" + "5" + [];
    StripUnique(StrSpace, "\U{1c}", "5", []);
    StripKeeps(IntSpace, "\U{1c}5");
    assert ParseNumeral("\U{1c}") == None;
    assert "\U{1c}5"[..1] == "\U{1c}";
  }
}
