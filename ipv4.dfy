/**
 * The IPv4 part of Python's `ipaddress.ip_address` applied to a string: the text must be four
 * `.`-separated octets, each one to three ASCII digits, without a leading zero, at most 255.
 */
module IPv4 {
  import opened Wrappers
  import opened Text

  predicate IsDigit(ch: char) { '0' <= ch <= '9' }

  function DigitValue(ch: char): nat
    requires IsDigit(ch)
  {
    ch as int - '0' as int
  }

  function DigitChar(d: nat): (ch: char)
    requires d < 10
    ensures IsDigit(ch) && DigitValue(ch) == d
  {
    ('0' as int + d) as char
  }

  /** The value of a string of decimal digits, most significant first. */
  function DecimalValue(s: string): nat
    requires forall i :: 0 <= i < |s| ==> IsDigit(s[i])
  {
    if s == [] then 0 else DecimalValue(s[..|s| - 1]) * 10 + DigitValue(s[|s| - 1])
  }

  /** One octet: rejects the empty text, a non-digit, more than three digits, a leading zero, a value over 255. */
  function ParseOctet(s: string): (r: Option<nat>)
    ensures r.Some? ==> r.value <= 255 && 1 <= |s| <= 3
    ensures r.Some? ==> forall i :: 0 <= i < |s| ==> IsDigit(s[i])
  {
    if s == [] then None
    else if !(forall i :: 0 <= i < |s| ==> IsDigit(s[i])) then None
    else if |s| > 3 then None
    else if s != "0" && s[0] == '0' then None
    else if DecimalValue(s) > 255 then None
    else Some(DecimalValue(s))
  }

  /** The dotted-quad reading of `s`, or None when `ipaddress` would raise ValueError. */
  function Parse(s: string): (r: Option<seq<nat>>)
    ensures r.Some? ==> |r.value| == 4 && forall i :: 0 <= i < 4 ==> r.value[i] <= 255
  {
    var parts := Split(s, '.');
    if |parts| != 4 then None
    else
      var o0, o1, o2, o3 := ParseOctet(parts[0]), ParseOctet(parts[1]), ParseOctet(parts[2]), ParseOctet(parts[3]);
      if o0.None? || o1.None? || o2.None? || o3.None? then None
      else Some([o0.value, o1.value, o2.value, o3.value])
  }

  predicate IsAddress(s: string) { Parse(s).Some? }

  /** The canonical decimal text of an octet value. */
  function FormatOctet(n: nat): string
    requires n <= 255
  {
    if n < 10 then [DigitChar(n)]
    else if n < 100 then [DigitChar(n / 10), DigitChar(n % 10)]
    else [DigitChar(n / 100), DigitChar(n / 10 % 10), DigitChar(n % 10)]
  }

  function Format(o: seq<nat>): string
    requires |o| == 4 && forall i :: 0 <= i < 4 ==> o[i] <= 255
  {
    Join([FormatOctet(o[0]), FormatOctet(o[1]), FormatOctet(o[2]), FormatOctet(o[3])], '.')
  }

  /** The value of a one-, two- or three-digit string, written out. */
  lemma DecimalValueShort(s: string)
    requires 1 <= |s| <= 3 && forall i :: 0 <= i < |s| ==> IsDigit(s[i])
    ensures |s| == 1 ==> DecimalValue(s) == DigitValue(s[0])
    ensures |s| == 2 ==> DecimalValue(s) == DigitValue(s[0]) * 10 + DigitValue(s[1])
    ensures |s| == 3 ==> DecimalValue(s) == DigitValue(s[0]) * 100 + DigitValue(s[1]) * 10 + DigitValue(s[2])
  {
    var a := s[..|s| - 1];
    if |a| > 0 {
      var b := a[..|a| - 1];
      if |b| > 0 {
        assert b[..|b| - 1] == [];
        assert DecimalValue(b) == DigitValue(b[0]);
      }
      assert DecimalValue(a) == DecimalValue(b) * 10 + DigitValue(a[|a| - 1]);
    }
  }

  lemma ParseFormatOctet(n: nat)
    requires n <= 255
    ensures ParseOctet(FormatOctet(n)) == Some(n)
  {
    var s := FormatOctet(n);
    DecimalValueShort(s);
    if 10 <= n < 100 {
      assert n == 10 * (n / 10) + n % 10 && n / 10 != 0;
    } else if 100 <= n {
      assert n / 10 == 10 * (n / 100) + n / 10 % 10;
      assert n == 100 * (n / 100) + 10 * (n / 10 % 10) + n % 10 && n / 100 != 0;
    }
  }

  lemma DigitRoundTrip(ch: char)
    requires IsDigit(ch)
    ensures DigitChar(DigitValue(ch)) == ch
  {
  }

  /** Splitting a two- or three-digit value into its digits. */
  lemma DigitsOf(a: nat, b: nat, c: nat)
    requires a < 10 && b < 10 && c < 10
    ensures (10 * a + b) / 10 == a && (10 * a + b) % 10 == b
    ensures (100 * a + 10 * b + c) / 100 == a
    ensures (100 * a + 10 * b + c) / 10 % 10 == b && (100 * a + 10 * b + c) % 10 == c
  {
    assert (100 * a + 10 * b + c) / 10 == 10 * a + b;
  }

  /** An accepted octet text is exactly the canonical text of its value (no leading zeros). */
  lemma FormatParseOctet(s: string)
    requires ParseOctet(s).Some?
    ensures FormatOctet(ParseOctet(s).value) == s
  {
    var n := ParseOctet(s).value;
    DecimalValueShort(s);
    DigitRoundTrip(s[0]);
    if |s| == 1 {
      assert s == [s[0]];
    } else if |s| == 2 {
      var a, b := DigitValue(s[0]), DigitValue(s[1]);
      assert a != 0 && n == 10 * a + b;
      DigitsOf(a, b, 0);
      DigitRoundTrip(s[1]);
      assert s == [s[0], s[1]];
    } else {
      var a, b, c := DigitValue(s[0]), DigitValue(s[1]), DigitValue(s[2]);
      assert a != 0 && n == 100 * a + 10 * b + c;
      DigitsOf(a, b, c);
      DigitRoundTrip(s[1]);
      DigitRoundTrip(s[2]);
      assert s == [s[0], s[1], s[2]];
    }
  }

  lemma FormatOctetNoDot(n: nat)
    requires n <= 255
    ensures '.' !in FormatOctet(n)
  {
  }

  /** Printing four octets and reading them back gives the same octets. */
  lemma ParseFormat(o: seq<nat>)
    requires |o| == 4 && forall i :: 0 <= i < 4 ==> o[i] <= 255
    ensures Parse(Format(o)) == Some(o)
  {
    var ps := [FormatOctet(o[0]), FormatOctet(o[1]), FormatOctet(o[2]), FormatOctet(o[3])];
    forall i | 0 <= i < 4 ensures '.' !in ps[i] && ParseOctet(ps[i]) == Some(o[i]) {
      FormatOctetNoDot(o[i]);
      ParseFormatOctet(o[i]);
    }
    SplitJoin(ps, '.');
    assert Split(Format(o), '.') == ps;
    assert o == [o[0], o[1], o[2], o[3]];
  }

  /** An accepted address text is exactly the canonical text of the octets it denotes. */
  lemma FormatParse(s: string)
    requires IsAddress(s)
    ensures Format(Parse(s).value) == s
  {
    var parts := Split(s, '.');
    forall i | 0 <= i < 4 ensures FormatOctet(Parse(s).value[i]) == parts[i] {
      FormatParseOctet(parts[i]);
    }
    assert [FormatOctet(Parse(s).value[0]), FormatOctet(Parse(s).value[1]),
            FormatOctet(Parse(s).value[2]), FormatOctet(Parse(s).value[3])] == parts;
    JoinSplit(s, '.');
  }

  /** An address text holds only digits and dots. */
  lemma AddressAlphabet(s: string)
    requires IsAddress(s)
    ensures forall i :: 0 <= i < |s| ==> IsDigit(s[i]) || s[i] == '.'
  {
    FormatParse(s);
    var o := Parse(s).value;
    var ps := [FormatOctet(o[0]), FormatOctet(o[1]), FormatOctet(o[2]), FormatOctet(o[3])];
    JoinFour(ps[0], ps[1], ps[2], ps[3], '.');
  }

  /** Octets above 255 are refused. */
  lemma OutOfRangeIsNotAddress()
    ensures !IsAddress("999.999.999.999")
  {
    var ps := ["999", "999", "999", "999"];
    JoinFour(ps[0], ps[1], ps[2], ps[3], '.');
    assert Join(ps, '.') == "999.999.999.999";
    SplitJoin(ps, '.');
    DecimalValueShort(ps[0]);
    assert ParseOctet(ps[0]).None?;
  }

  /** A leading zero in an octet is refused. */
  lemma LeadingZeroIsNotAddress()
    ensures !IsAddress("127.0.0.01")
  {
    var ps := ["127", "0", "0", "01"];
    JoinFour(ps[0], ps[1], ps[2], ps[3], '.');
    assert Join(ps, '.') == "127.0.0.01";
    SplitJoin(ps, '.');
    assert ParseOctet(ps[3]).None?;
  }
}
