/**
 * Turning the configured MAC address text into bytes, as `wake_on_lan` does it:
 * every ':' and then every '-' is deleted (two `str.replace` calls) and the
 * remainder is given to Python's `bytes.fromhex`.
 *
 * `bytes.fromhex` is modelled as CPython implements it: ASCII whitespace is
 * skipped in front of each pair of digits, each pair of hexadecimal digits
 * (either case) gives one byte, and any other character, or a digit left
 * without a partner, makes the call fail (it raises `ValueError`).
 */
module Hex {
  import opened Wrappers

  type Byte = b: int | 0 <= b < 256

  predicate IsHexDigit(c: char) {
    ('0' <= c <= '9') || ('a' <= c <= 'f') || ('A' <= c <= 'F')
  }

  /** The characters CPython's `Py_ISSPACE` accepts: space, and tab through carriage return. */
  predicate IsAsciiSpace(c: char) {
    c == ' ' || ('\t' <= c <= '\r')
  }

  function DigitValue(c: char): (v: nat)
    requires IsHexDigit(c)
    ensures v < 16
  {
    if '0' <= c <= '9' then c as int - '0' as int
    else if 'a' <= c <= 'f' then c as int - 'a' as int + 10
    else c as int - 'A' as int + 10
  }

  /** The upper-case digit for a value below 16. */
  function Digit(v: nat): (c: char)
    requires v < 16
    ensures IsHexDigit(c) && !IsAsciiSpace(c) && DigitValue(c) == v
    ensures c != ':' && c != '-'
  {
    if v < 10 then ('0' as int + v) as char else ('A' as int + v - 10) as char
  }

  /** Python's `bytes.fromhex` on a `str`. */
  function FromHex(s: string): (r: Option<seq<Byte>>)
    ensures r.Some? ==> 2 * |r.value| <= |s|
    decreases |s|
  {
    if s == [] then Some([])
    else if IsAsciiSpace(s[0]) then FromHex(s[1..])
    else if |s| >= 2 && IsHexDigit(s[0]) && IsHexDigit(s[1]) then
      match FromHex(s[2..])
      case None => None
      case Some(rest) => Some([16 * DigitValue(s[0]) + DigitValue(s[1])] + rest)
    else None
  }

  /** The number of hexadecimal digits in `s`. */
  function CountHexDigits(s: string): nat {
    if s == [] then 0 else (if IsHexDigit(s[0]) then 1 else 0) + CountHexDigits(s[1..])
  }

  /** `s.replace(c, '')`: every occurrence of `c` deleted; `RemoveCharAppend` states that the rest keeps its order. */
  function RemoveChar(s: string, c: char): (r: string)
    ensures c !in r && |r| <= |s|
    ensures forall x :: x != c ==> multiset(r)[x] == multiset(s)[x]
  {
    if s == [] then []
    else
      assert s == [s[0]] + s[1..];
      if s[0] == c then RemoveChar(s[1..], c) else [s[0]] + RemoveChar(s[1..], c)
  }

  /** `mac.replace(':', '').replace('-', '')`. */
  function StripSeparators(mac: string): (r: string)
    ensures ':' !in r && '-' !in r
    ensures forall x :: x != ':' && x != '-' ==> multiset(r)[x] == multiset(mac)[x]
  {
    var noColon := RemoveChar(mac, ':');
    var r := RemoveChar(noColon, '-');
    assert multiset(r)[':'] == multiset(noColon)[':'] == 0;
    r
  }

  /** The bytes `wake_on_lan` sends for, or the failure it logs, given the configured MAC text. */
  function DecodeMac(mac: string): (r: Option<seq<Byte>>)
    ensures r.Some? ==> 2 * |r.value| <= |mac|
  {
    FromHex(StripSeparators(mac))
  }

  /** Two upper-case digits for one byte. */
  function ByteToHex(b: Byte): (r: string)
    ensures |r| == 2 && FromHex(r) == Some([b])
  {
    var r := [Digit(b / 16), Digit(b % 16)];
    assert !IsAsciiSpace(r[0]) && FromHex(r[2..]) == Some([]);
    assert 16 * DigitValue(r[0]) + DigitValue(r[1]) == b;
    var d: Byte := 16 * DigitValue(r[0]) + DigitValue(r[1]);
    assert FromHex(r) == Some([d] + []);
    assert [d] + [] == [b];
    r
  }

  /** The plain hexadecimal text of a byte string, two digits per byte, no separators. */
  function ToHex(bs: seq<Byte>): (r: string)
    ensures |r| == 2 * |bs|
  {
    if bs == [] then [] else ByteToHex(bs[0]) + ToHex(bs[1..])
  }

  /** The usual way to write a MAC address: byte pairs joined by `sep` (":" or "-" or ""). */
  function FormatMac(bs: seq<Byte>, sep: string): string {
    if bs == [] then []
    else if |bs| == 1 then ByteToHex(bs[0])
    else ByteToHex(bs[0]) + sep + FormatMac(bs[1..], sep)
  }

  // ---------------------------------------------------------------------------
  // What `bytes.fromhex` accepts and what it yields

  /** A successful decode consumed only digits and whitespace, two digits per byte. */
  lemma {:induction false} FromHexShape(s: string)
    requires FromHex(s).Some?
    ensures forall i :: 0 <= i < |s| ==> IsHexDigit(s[i]) || IsAsciiSpace(s[i])
    ensures CountHexDigits(s) == 2 * |FromHex(s).value|
    decreases |s|
  {
    if s == [] {
    } else if IsAsciiSpace(s[0]) {
      FromHexShape(s[1..]);
      assert !IsHexDigit(s[0]);
      forall i | 0 <= i < |s| ensures IsHexDigit(s[i]) || IsAsciiSpace(s[i]) {
        if i > 0 { assert s[i] == s[1..][i - 1]; }
      }
    } else {
      FromHexShape(s[2..]);
      assert CountHexDigits(s) == 1 + CountHexDigits(s[1..]);
      assert s[1..][1..] == s[2..];
      forall i | 0 <= i < |s| ensures IsHexDigit(s[i]) || IsAsciiSpace(s[i]) {
        if i > 1 { assert s[i] == s[2..][i - 2]; }
      }
    }
  }

  /** A character that is neither a digit nor whitespace, or an odd number of digits, makes decoding fail. */
  lemma {:induction false} MalformedHexRejected(s: string)
    requires (exists i :: 0 <= i < |s| && !IsHexDigit(s[i]) && !IsAsciiSpace(s[i]))
             || CountHexDigits(s) % 2 == 1
    ensures FromHex(s) == None
  {
    if FromHex(s).Some? {
      FromHexShape(s);
    }
  }

  /** On text made only of digits, decoding succeeds exactly when the number of digits is even. */
  lemma {:induction false} FromHexDigitsOnly(s: string)
    requires forall i :: 0 <= i < |s| ==> IsHexDigit(s[i])
    ensures FromHex(s).Some? <==> |s| % 2 == 0
    ensures FromHex(s).Some? ==> |FromHex(s).value| == |s| / 2
    decreases |s|
  {
    if s == [] {
    } else {
      assert !IsAsciiSpace(s[0]);
      if |s| >= 2 {
        FromHexDigitsOnly(s[2..]);
      }
    }
  }

  /** Round trip: decoding the plain hexadecimal text of any byte string gives it back. */
  lemma {:induction false} FromHexToHex(bs: seq<Byte>)
    ensures FromHex(ToHex(bs)) == Some(bs)
  {
    if bs != [] {
      var h := ByteToHex(bs[0]);
      var s := ToHex(bs);
      FromHexToHex(bs[1..]);
      assert s == h + ToHex(bs[1..]);
      assert s[0] == h[0] && s[1] == h[1] && s[2..] == ToHex(bs[1..]);
      assert FromHex(h) == Some([bs[0]]);
      assert [bs[0]] + bs[1..] == bs;
    }
  }

  lemma {:induction false} RemoveCharAppend(a: string, b: string, c: char)
    ensures RemoveChar(a + b, c) == RemoveChar(a, c) + RemoveChar(b, c)
    decreases |a|
  {
    if a == [] {
      assert a + b == b;
    } else {
      assert (a + b)[0] == a[0] && (a + b)[1..] == a[1..] + b;
      RemoveCharAppend(a[1..], b, c);
      if a[0] != c {
        assert RemoveChar(a + b, c) == [a[0]] + RemoveChar(a[1..] + b, c);
        assert RemoveChar(a, c) == [a[0]] + RemoveChar(a[1..], c);
        assert RemoveChar(a + b, c) == RemoveChar(a, c) + RemoveChar(b, c);
      } else {
        assert RemoveChar(a + b, c) == RemoveChar(a[1..] + b, c);
        assert RemoveChar(a, c) == RemoveChar(a[1..], c);
      }
    }
  }

  /** `StripSeparators` works piecewise: stripping a concatenation concatenates the stripped parts, in order. */
  lemma StripSeparatorsAppend(a: string, b: string)
    ensures StripSeparators(a + b) == StripSeparators(a) + StripSeparators(b)
  {
    RemoveCharAppend(a, b, ':');
    RemoveCharAppend(RemoveChar(a, ':'), RemoveChar(b, ':'), '-');
  }

  /**
   * Character by character: a separator in front is dropped, any other
   * character is kept in front of the stripped rest. With `StripSeparators("")
   * == ""` this determines the result completely, order included.
   */
  lemma StripSeparatorsCons(c: char, s: string)
    ensures StripSeparators([c] + s) == (if c == ':' || c == '-' then [] else [c]) + StripSeparators(s)
  {
    StripSeparatorsAppend([c], s);
    assert [c][1..] == [];
  }

  lemma {:induction false} RemoveCharAbsent(s: string, c: char)
    requires c !in s
    ensures RemoveChar(s, c) == s
    decreases |s|
  {
    if s != [] {
      RemoveCharAbsent(s[1..], c);
    }
  }

  /** The separators deleted by `StripSeparators` leave exactly the digits of a formatted address. */
  lemma {:induction false} StripFormatted(bs: seq<Byte>, sep: string)
    requires sep == ":" || sep == "-" || sep == ""
    ensures StripSeparators(FormatMac(bs, sep)) == ToHex(bs)
    decreases |bs|
  {
    if bs != [] {
      var h := ByteToHex(bs[0]);
      assert ':' !in h && '-' !in h;
      RemoveCharAbsent(h, ':');
      RemoveCharAbsent(h, '-');
      if |bs| == 1 {
        assert ToHex(bs) == h + ToHex(bs[1..]);
      } else {
        var rest := FormatMac(bs[1..], sep);
        StripFormatted(bs[1..], sep);
        RemoveCharAppend(h + sep, rest, ':');
        RemoveCharAppend(h, sep, ':');
        var r1 := RemoveChar(sep, ':');
        var rest1 := RemoveChar(rest, ':');
        RemoveCharAppend(h + r1, rest1, '-');
        RemoveCharAppend(h, r1, '-');
        assert RemoveChar(r1, '-') == [] by {
          if sep == ":" {
            assert r1 == RemoveChar(sep[1..], ':');
          } else if sep == "-" {
            assert r1 == sep;
            assert RemoveChar(sep, '-') == RemoveChar(sep[1..], '-');
          }
        }
      }
    }
  }

  /**
   * The colon form, the dash form and the bare form of the same address all
   * decode to that address.
   */
  lemma MacFormsDecode(bs: seq<Byte>, sep: string)
    requires sep == ":" || sep == "-" || sep == ""
    ensures DecodeMac(FormatMac(bs, sep)) == Some(bs)
  {
    StripFormatted(bs, sep);
    FromHexToHex(bs);
  }
}
