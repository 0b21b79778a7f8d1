/** Python's `int(text)` on a string in base 10, and `str(n)` for its inverse.

    `int()` first maps every non-ASCII whitespace character to a space, then removes
    the surrounding ASCII whitespace `" \t\n\v\f\r"`, accepts one optional sign, and
    requires ASCII digits in which single underscores may separate two digits.
    Anything else raises `ValueError`, modelled here as `None`. */
module PyInt {
  import opened Wrappers
  import Text

  predicate IsDigit(c: char) {
    '0' <= c <= '9'
  }

  /** The body `int()` accepts after the sign: `d(_?d)*`. */
  predicate DigitForm(s: string) {
    && s != []
    && IsDigit(s[0])
    && IsDigit(s[|s| - 1])
    && (forall i :: 0 <= i < |s| ==> IsDigit(s[i]) || s[i] == '_')
    && (forall i :: 0 <= i < |s| - 1 ==> s[i] != '_' || s[i + 1] != '_')
  }

  /** The number the digits of `s` spell, underscores ignored. */
  function DigitsValue(s: string): nat
    decreases |s|
  {
    if s == [] then 0
    else
      var last := s[|s| - 1];
      if IsDigit(last) then DigitsValue(s[..|s| - 1]) * 10 + (last as int - '0' as int)
      else DigitsValue(s[..|s| - 1])
  }

  /** The characters `int()` strips: whitespace to `str.isspace()` except the ASCII
      separators U+001C to U+001F, which `int()` leaves in place and so rejects. */
  predicate IntSpace(c: char) {
    Text.IsSpace(c) && !('\U{1C}' <= c <= '\U{1F}')
  }

  /** The text `int()` parses once surrounding whitespace is removed. */
  function IntStrip(s: string): (r: string)
    ensures Text.TrimmedBy(IntSpace, r)
  {
    var l := Text.DropLeading(IntSpace, s);
    var r := Text.DropTrailing(IntSpace, l);
    assert Text.TrimmedBy(IntSpace, r) by {
      if r != [] {
        assert r[0] == l[0];
      }
    }
    r
  }

  /** The character at `i` can be part of an integer text: a digit, an underscore, or
      a sign at the front. */
  predicate NumberChar(t: string, i: nat)
    requires i < |t|
  {
    IsDigit(t[i]) || t[i] == '_' || (i == 0 && (t[i] == '-' || t[i] == '+'))
  }

  /** `int(s)`, with `None` for the `ValueError` case. A number comes only from a
      non-empty text made of digits, underscores and one leading sign; a negative one
      only from a text starting with `-`. */
  function ParseInt(s: string): (r: Option<int>)
    ensures r.Some? ==> IntStrip(s) != []
    ensures r.Some? ==> forall i :: 0 <= i < |IntStrip(s)| ==> NumberChar(IntStrip(s), i)
    ensures r.Some? ==> exists i :: 0 <= i < |IntStrip(s)| && IsDigit(IntStrip(s)[i])
    ensures r.Some? && r.value < 0 ==> IntStrip(s)[0] == '-'
  {
    var t := IntStrip(s);
    if t != [] && (t[0] == '-' || t[0] == '+') then
      if DigitForm(t[1..]) then
        var v: int := DigitsValue(t[1..]);
        assert forall i :: 1 <= i < |t| ==> t[i] == t[1..][i - 1];
        assert IsDigit(t[1]) by {
          assert t[1] == t[1..][0];
        }
        Some(if t[0] == '-' then -v else v)
      else None
    else if DigitForm(t) then Some(DigitsValue(t))
    else None
  }

  /** A text holding anything but digits, underscores and one leading sign, once
      stripped, is not a number. */
  lemma NotNumberText(s: string, i: nat)
    requires i < |IntStrip(s)| && !NumberChar(IntStrip(s), i)
    ensures ParseInt(s).None?
  {
  }

  /** `int()` leaves a text without surrounding whitespace as it is. */
  lemma IntStripOfTrimmed(s: string)
    requires s != [] && !Text.IsSpace(s[0]) && !Text.IsSpace(s[|s| - 1])
    ensures IntStrip(s) == s
  {
  }

  /** The information separator U+001C is whitespace to `str.strip()` but not to
      `int()`; a no-break space is stripped by both. */
  lemma SeparatorsAreNotStripped()
    ensures Text.IsSpace('\U{1C}') && ParseInt("5\U{1C}").None?
    ensures ParseInt("\U{A0}5") == Some(5)
  {
    assert Text.SpaceFrom('\U{1C}', 2);
    PrintableNotSpace('5');
    var s := "5\U{1C}";
    assert Text.DropLeading(IntSpace, s) == s;
    assert Text.DropTrailing(IntSpace, s) == s;
    NotNumberText(s, 1);
    var t := "\U{A0}5";
    assert Text.SpaceFrom('\U{A0}', 4);
    assert Text.DropLeading(IntSpace, t) == "5" by {
      assert t[1..] == "5";
    }
    assert IntStrip(t) == "5";
    assert DigitsValue("5") == DigitsValue("") * 10 + 5;
  }

  /** `str(n)` for a natural number: its decimal digits, no leading zero. */
  function ShowNat(n: nat): (s: string)
    ensures DigitForm(s)
    ensures forall i :: 0 <= i < |s| ==> IsDigit(s[i])
    ensures DigitsValue(s) == n
    decreases n
  {
    var d := [('0' as int + n % 10) as char];
    if n < 10 then
      d
    else
      var p := ShowNat(n / 10);
      var s := p + d;
      assert s[..|s| - 1] == p;
      s
  }

  /** `str(n)`. */
  function ShowInt(n: int): string {
    if n < 0 then "-" + ShowNat(-n) else ShowNat(n)
  }

  /** Characters from `!` to `~` are not whitespace. */
  lemma {:induction false} PrintableNotSpaceFrom(c: char, k: nat)
    requires '!' <= c <= '~'
    ensures !Text.SpaceFrom(c, k)
    decreases 11 - k
  {
    if k < 11 {
      PrintableNotSpaceFrom(c, k + 1);
    }
  }

  lemma PrintableNotSpace(c: char)
    requires '!' <= c <= '~'
    ensures !Text.IsSpace(c)
  {
    PrintableNotSpaceFrom(c, 0);
  }

  /** Python's `int()` inverts `str()` on integers. */
  lemma ParseShowInt(n: int)
    ensures ParseInt(ShowInt(n)) == Some(n)
  {
    var s := ShowInt(n);
    var digits := if n < 0 then ShowNat(-n) else ShowNat(n);
    assert s[|s| - 1] == digits[|digits| - 1];
    PrintableNotSpace(s[0]);
    PrintableNotSpace(s[|s| - 1]);
    IntStripOfTrimmed(s);
    if n < 0 {
      assert s[1..] == digits;
    }
  }
}
