/**
 * 128-bit identity ids and their text form. The store keys every record by
 * `id.to_string()`, which for the `uuid` crate is the lower-case hyphenated
 * form: 32 hexadecimal digits in groups of 8-4-4-4-12.
 */
module Uuids {

  import opened Optional

  const UUID_SPACE: nat := 0x1_0000_0000_0000_0000_0000_0000_0000_0000

  /** A 128-bit identifier. */
  type Uuid = n: nat | n < 0x1_0000_0000_0000_0000_0000_0000_0000_0000

  function Pow16(w: nat): (r: nat)
    ensures r > 0
  {
    if w == 0 then 1 else 16 * Pow16(w - 1)
  }

  predicate IsHexDigit(c: char) {
    '0' <= c <= '9' || 'a' <= c <= 'f'
  }

  function HexDigit(d: nat): (c: char)
    requires d < 16
    ensures IsHexDigit(c)
  {
    if d < 10 then ('0' as int + d) as char else ('a' as int + d - 10) as char
  }

  /** The value of a hexadecimal digit; any other character counts as zero. */
  function HexValue(c: char): (d: nat)
    ensures d < 16
  {
    if '0' <= c <= '9' then c as int - '0' as int
    else if 'a' <= c <= 'f' then c as int - 'a' as int + 10
    else 0
  }

  /** The low `width` hexadecimal digits of `n`, most significant first. */
  function Hex(n: nat, width: nat): (s: string)
    ensures |s| == width
  {
    if width == 0 then [] else Hex(n / 16, width - 1) + [HexDigit(n % 16)]
  }

  /** The number a string of hexadecimal digits denotes. */
  function Unhex(s: string): nat
  {
    if s == [] then 0 else Unhex(s[..|s| - 1]) * 16 + HexValue(s[|s| - 1])
  }

  lemma {:induction false} UnhexHex(n: nat, width: nat)
    requires n < Pow16(width)
    ensures Unhex(Hex(n, width)) == n
  {
    if width > 0 {
      var s := Hex(n, width);
      assert s[..|s| - 1] == Hex(n / 16, width - 1);
      assert n / 16 < Pow16(width - 1) by {
        DivBound(n, Pow16(width - 1));
      }
      UnhexHex(n / 16, width - 1);
      assert HexValue(HexDigit(n % 16)) == n % 16;
    }
  }

  lemma DivBound(n: nat, p: nat)
    requires p > 0 && n < 16 * p
    ensures n / 16 < p
  {
  }

  lemma Pow16At32()
    ensures Pow16(32) == UUID_SPACE
  {
    assert Pow16(8) == 0x1_0000_0000;
    assert Pow16(16) == 0x1_0000_0000 * Pow16(8) by { Pow16Add(8, 8); }
    assert Pow16(32) == Pow16(16) * Pow16(16) by { Pow16Add(16, 16); }
  }

  lemma {:induction false} Pow16Add(a: nat, b: nat)
    ensures Pow16(a + b) == Pow16(a) * Pow16(b)
  {
    if a > 0 {
      Pow16Add(a - 1, b);
    }
  }

  /** The text form puts a hyphen after the 8th, 12th, 16th and 20th digit. */
  predicate HyphenAfter(k: nat)
  {
    k == 8 || k == 12 || k == 16 || k == 20
  }

  /** How many hyphens the first `w` digits are followed by, up to the last. */
  function HyphensWithin(w: nat): nat
  {
    (if w > 8 then 1 else 0) + (if w > 12 then 1 else 0) + (if w > 16 then 1 else 0) + (if w > 20 then 1 else 0)
  }

  /** The low `width` hexadecimal digits of `n`, most significant first, grouped by hyphens. */
  function Render(n: nat, width: nat): string
  {
    if width == 0 then []
    else Render(n / 16, width - 1) + (if HyphenAfter(width - 1) then "-" else "") + [HexDigit(n % 16)]
  }

  /** `id.to_string()`: lower-case hyphenated hexadecimal, grouped 8-4-4-4-12. */
  function UuidToString(id: Uuid): string
  {
    Render(id, 32)
  }

  /** Hyphens sit exactly at the group boundaries; every other character is a digit. */
  lemma {:induction false} RenderShape(n: nat, width: nat)
    requires width <= 32
    ensures |Render(n, width)| == width + HyphensWithin(width)
    ensures forall i :: 0 <= i < |Render(n, width)| ==>
      if i == 8 || i == 13 || i == 18 || i == 23 then Render(n, width)[i] == '-' else IsHexDigit(Render(n, width)[i])
  {
    if width > 0 {
      var front := Render(n / 16, width - 1);
      var sep := if HyphenAfter(width - 1) then "-" else "";
      RenderShape(n / 16, width - 1);
      var s := Render(n, width);
      assert s == front + sep + [HexDigit(n % 16)];
      forall i | 0 <= i < |s|
        ensures if i == 8 || i == 13 || i == 18 || i == 23 then s[i] == '-' else IsHexDigit(s[i])
      {
        if i < |front| {
          assert s[i] == front[i];
        } else if i < |front| + |sep| {
          assert s[i] == '-';
        } else {
          assert s[i] == HexDigit(n % 16);
        }
      }
    }
  }

  /** The text form is 36 characters: hexadecimal digits with hyphens at 8, 13, 18 and 23. */
  lemma UuidTextFormat(id: Uuid)
    ensures var s := UuidToString(id);
      && |s| == 36
      && s[8] == '-' && s[13] == '-' && s[18] == '-' && s[23] == '-'
      && forall i :: 0 <= i < 36 && i != 8 && i != 13 && i != 18 && i != 23 ==> IsHexDigit(s[i])
  {
    RenderShape(id, 32);
  }

  /** The characters of a string other than hyphens. */
  function Strip(s: string): string
  {
    if s == [] then []
    else Strip(s[..|s| - 1]) + (if s[|s| - 1] == '-' then [] else [s[|s| - 1]])
  }

  /** Removing the hyphens from the grouped digits leaves the digits. */
  lemma {:induction false} StripRender(n: nat, width: nat)
    ensures Strip(Render(n, width)) == Hex(n, width)
  {
    if width > 0 {
      var front := Render(n / 16, width - 1);
      var withSep := front + (if HyphenAfter(width - 1) then "-" else "");
      var digit := HexDigit(n % 16);
      var s := Render(n, width);
      assert s == withSep + [digit];
      assert s[..|s| - 1] == withSep;
      assert s[|s| - 1] == digit && digit != '-';
      assert Strip(s) == Strip(withSep) + [digit];
      StripRender(n / 16, width - 1);
      if HyphenAfter(width - 1) {
        assert withSep[..|withSep| - 1] == front;
        assert Strip(withSep) == Strip(front);
      } else {
        assert withSep == front;
      }
    }
  }

  /** Reads an id back from its text form: the 8-4-4-4-12 layout, then the number its digits denote. */
  function ParseUuid(key: string): (r: Option<Uuid>)
  {
    if |key| == 36 && key[8] == '-' && key[13] == '-' && key[18] == '-' && key[23] == '-'
       && (forall i :: 0 <= i < 36 && i != 8 && i != 13 && i != 18 && i != 23 ==> IsHexDigit(key[i]))
    then
      var n := Unhex(Strip(key));
      if n < UUID_SPACE then Some(n) else None
    else None
  }

  /** Parsing the text form gives back the id: the text form loses nothing. */
  lemma UuidRoundTrip(id: Uuid)
    ensures ParseUuid(UuidToString(id)) == Some(id)
  {
    UuidTextFormat(id);
    StripRender(id, 32);
    Pow16At32();
    UnhexHex(id, 32);
  }

  /** Distinct ids have distinct keys. */
  lemma UuidToStringInjective(a: Uuid, b: Uuid)
    ensures UuidToString(a) == UuidToString(b) ==> a == b
  {
    UuidRoundTrip(a);
    UuidRoundTrip(b);
  }
}
