/** The text formatting the utilities rely on: Python's `hex()`, `'{:02x}'`
    and `'{}'` of integers, substring tests, `os.path.basename`, string slices
    with negative indices and `str.replace`. */
module Text {

  /** The smaller of two integers, as Python's `min`. */
  function Min(a: int, b: int): (r: int)
    ensures r <= a && r <= b && (r == a || r == b)
  {
    if a < b then a else b
  }

  predicate IsHexChar(c: char)
  {
    '0' <= c <= '9' || 'a' <= c <= 'f'
  }

  predicate IsHexString(s: string)
  {
    forall i :: 0 <= i < |s| ==> IsHexChar(s[i])
  }

  /** The lowercase hexadecimal digit of `d`. */
  function HexDigit(d: nat): (c: char)
    requires d < 16
    ensures IsHexChar(c) && HexDigitValue(c) == d
  {
    if d < 10 then ('0' as int + d) as char else ('a' as int + d - 10) as char
  }

  function HexDigitValue(c: char): (d: nat)
    requires IsHexChar(c)
    ensures d < 16
  {
    if c <= '9' then c as int - '0' as int else c as int - 'a' as int + 10
  }

  /** The digits of `hex(n)` after its `0x`. */
  function HexDigits(n: nat): string
    decreases n
  {
    if n < 16 then [HexDigit(n)] else HexDigits(n / 16) + [HexDigit(n % 16)]
  }

  /** Those digits are lowercase hex digits with no leading zero. */
  lemma {:induction false} HexDigitsShape(n: nat)
    ensures |HexDigits(n)| >= 1 && IsHexString(HexDigits(n))
    ensures n > 0 ==> HexDigits(n)[0] != '0'
    decreases n
  {
    if n >= 16 {
      HexDigitsShape(n / 16);
      assert HexDigits(n)[0] == HexDigits(n / 16)[0];
    }
  }

  /** Python's `hex(n)` for a non-negative `n`. */
  function Hex(n: nat): string
  {
    "0x" + HexDigits(n)
  }

  /** The number a string of hex digits denotes, as `int(s, 16)` reads it. */
  function HexValue(s: string): nat
    requires IsHexString(s)
  {
    if |s| == 0 then 0 else HexValue(s[..|s| - 1]) * 16 + HexDigitValue(s[|s| - 1])
  }

  /** Reading back the digits of `hex(n)` gives `n`. */
  lemma {:induction false} HexRoundTrip(n: nat)
    ensures IsHexString(HexDigits(n)) && HexValue(HexDigits(n)) == n
    decreases n
  {
    HexDigitsShape(n);
    var s := HexDigits(n);
    if n < 16 {
      assert s[..|s| - 1] == [];
    } else {
      assert s[..|s| - 1] == HexDigits(n / 16);
      HexRoundTrip(n / 16);
    }
  }

  /** Python's `'{:02x}'.format(v)`: at least two digits, a minus sign for
      negative values (`-1` formats as `-1`). */
  function Fmt02x(v: int): string
  {
    if v < 0 then "-" + HexDigits(-v)
    else if v < 16 then "0" + HexDigits(v)
    else HexDigits(v)
  }

  /** A byte formats as exactly two lowercase hex digits that read back as it. */
  lemma Fmt02xByte(v: int)
    requires 0 <= v < 256
    ensures |Fmt02x(v)| == 2 && IsHexString(Fmt02x(v)) && HexValue(Fmt02x(v)) == v
  {
    var s := Fmt02x(v);
    HexDigitsShape(v);
    if v < 16 {
      assert s == ['0', HexDigit(v)];
      assert s[..1] == ['0'] && s[..1][..0] == [];
      assert HexValue(s[..1]) == 0;
    } else {
      assert HexDigits(v) == HexDigits(v / 16) + [HexDigit(v % 16)];
      assert HexDigits(v / 16) == [HexDigit(v / 16)];
      HexRoundTrip(v);
    }
  }

  /** Python's `" ".join(fields)`. */
  function JoinSpaced(fields: seq<string>): string
  {
    if |fields| == 0 then ""
    else if |fields| == 1 then fields[0]
    else fields[0] + " " + JoinSpaced(fields[1..])
  }

  /** `'{:02x}'.format(c) for c in vs`. */
  function Fields(vs: seq<int>): (r: seq<string>)
    ensures |r| == |vs|
  {
    seq(|vs|, i requires 0 <= i < |vs| => Fmt02x(vs[i]))
  }

  /** `" ".join('{:02x}'.format(c) for c in vs)`. */
  function JoinHex(vs: seq<int>): string
  {
    JoinSpaced(Fields(vs))
  }

  predicate AllBytes(vs: seq<int>)
  {
    forall i :: 0 <= i < |vs| ==> 0 <= vs[i] < 256
  }

  /** Two-character fields joined by spaces: field `k` sits at `3k`, followed
      by a space unless it is the last. */
  lemma {:induction false} JoinSpacedSlice(fields: seq<string>, k: nat)
    requires forall i :: 0 <= i < |fields| ==> |fields[i]| == 2
    requires k < |fields|
    ensures |JoinSpaced(fields)| == 3 * |fields| - 1
    ensures JoinSpaced(fields)[3 * k..3 * k + 2] == fields[k]
    ensures k + 1 < |fields| ==> JoinSpaced(fields)[3 * k + 2] == ' '
  {
    var f := fields[0];
    if |fields| == 1 {
      assert JoinSpaced(fields) == f && f[0..2] == f;
    } else {
      var head := f + " ";
      var rest := fields[1..];
      var tail := JoinSpaced(rest);
      assert |head| == 3;
      assert JoinSpaced(fields) == head + tail;
      JoinSpacedSlice(rest, if k > 0 then k - 1 else 0);
      if k > 0 {
        assert rest[k - 1] == fields[k];
        SliceAfter(head, tail, 3 * k, 3 * k + 2);
        if k + 1 < |fields| {
          assert (head + tail)[3 * k + 2] == tail[3 * (k - 1) + 2];
        }
      } else {
        assert (head + tail)[0..2] == head[0..2] == f;
      }
    }
  }

  /** The fields of byte values are two characters each. */
  lemma ByteFields(vs: seq<int>)
    requires AllBytes(vs)
    ensures forall i :: 0 <= i < |vs| ==> |Fields(vs)[i]| == 2
  {
    forall i | 0 <= i < |vs|
      ensures |Fields(vs)[i]| == 2
    {
      Fmt02xByte(vs[i]);
    }
  }

  /** Byte values joined this way take three characters each (two digits
      and a separating space), less the space after the last. */
  lemma JoinHexLength(vs: seq<int>)
    requires AllBytes(vs) && |vs| > 0
    ensures |JoinHex(vs)| == 3 * |vs| - 1
  {
    ByteFields(vs);
    JoinSpacedSlice(Fields(vs), 0);
  }

  /** The two characters at position `3k` of the joined byte values are the
      field of `vs[k]`, followed by a space unless it is the last. */
  lemma JoinHexSlice(vs: seq<int>, k: nat)
    requires AllBytes(vs) && k < |vs|
    ensures |JoinHex(vs)| == 3 * |vs| - 1
    ensures JoinHex(vs)[3 * k..3 * k + 2] == Fmt02x(vs[k])
    ensures k + 1 < |vs| ==> JoinHex(vs)[3 * k + 2] == ' '
  {
    ByteFields(vs);
    JoinSpacedSlice(Fields(vs), k);
  }

  /** The two characters at position `3k` of the joined byte values are the
      digits of `vs[k]`, and they read back as `vs[k]`. */
  lemma JoinHexBytes(vs: seq<int>, k: nat)
    requires AllBytes(vs) && k < |vs|
    ensures |JoinHex(vs)| == 3 * |vs| - 1
    ensures JoinHex(vs)[3 * k..3 * k + 2] == Fmt02x(vs[k])
    ensures IsHexString(JoinHex(vs)[3 * k..3 * k + 2]) && HexValue(JoinHex(vs)[3 * k..3 * k + 2]) == vs[k]
    ensures k + 1 < |vs| ==> JoinHex(vs)[3 * k + 2] == ' '
  {
    JoinHexSlice(vs, k);
    Fmt02xByte(vs[k]);
  }

  lemma SliceAfter<T>(a: seq<T>, b: seq<T>, i: nat, j: nat)
    requires |a| <= i <= j <= |a| + |b|
    ensures (a + b)[i..j] == b[i - |a|..j - |a|]
  {
  }

  function DecDigit(d: nat): (c: char)
    requires d < 10
    ensures '0' <= c <= '9' && c as int - '0' as int == d
  {
    ('0' as int + d) as char
  }

  predicate IsDecString(s: string)
  {
    forall i :: 0 <= i < |s| ==> '0' <= s[i] <= '9'
  }

  /** Python's `'{}'.format(n)` for a non-negative integer. */
  function Decimal(n: nat): (s: string)
    ensures |s| >= 1 && IsDecString(s)
    ensures n > 0 ==> s[0] != '0'
    decreases n
  {
    if n < 10 then [DecDigit(n)] else Decimal(n / 10) + [DecDigit(n % 10)]
  }

  function DecimalValue(s: string): nat
    requires IsDecString(s)
  {
    if |s| == 0 then 0 else DecimalValue(s[..|s| - 1]) * 10 + (s[|s| - 1] as int - '0' as int)
  }

  /** Reading back the decimal digits of `n` gives `n`. */
  lemma {:induction false} DecimalRoundTrip(n: nat)
    ensures DecimalValue(Decimal(n)) == n
    decreases n
  {
    var s := Decimal(n);
    if n < 10 {
      assert s[..|s| - 1] == [];
    } else {
      assert s[..|s| - 1] == Decimal(n / 10);
      DecimalRoundTrip(n / 10);
    }
  }

  /** Python's `t in s` for strings. */
  predicate Contains(s: string, t: string)
    decreases |s|
  {
    if |t| > |s| then false
    else if s[..|t|] == t then true
    else Contains(s[1..], t)
  }

  /** `t` occurs in `s` starting at index `i`. */
  predicate OccursAt(s: string, t: string, i: int)
  {
    0 <= i <= |s| - |t| && s[i..i + |t|] == t
  }

  /** A slice of a suffix is a slice of the whole. */
  lemma SliceShift<T>(s: seq<T>, a: nat, i: nat, j: nat)
    requires a <= |s| && i <= j <= |s| - a
    ensures s[a..][i..j] == s[a + i..a + j]
  {
    forall x | 0 <= x < j - i
      ensures s[a..][i..j][x] == s[a + i..a + j][x]
    {
    }
  }

  /** `Contains` holds exactly when `t` occurs at some position of `s`. */
  lemma {:induction false} ContainsIff(s: string, t: string)
    ensures Contains(s, t) <==> exists i :: OccursAt(s, t, i)
    decreases |s|
  {
    if |t| <= |s| && s[..|t|] != t {
      ContainsIff(s[1..], t);
      if Contains(s, t) {
        var i :| OccursAt(s[1..], t, i);
        SliceShift(s, 1, i, i + |t|);
        assert OccursAt(s, t, i + 1);
      }
      if exists i :: OccursAt(s, t, i) {
        var i :| OccursAt(s, t, i);
        assert i != 0;
        SliceShift(s, 1, i - 1, i - 1 + |t|);
        assert OccursAt(s[1..], t, i - 1);
      }
    } else if |t| <= |s| {
      assert OccursAt(s, t, 0);
    }
  }

  /** Python's `os.path.basename`: what follows the last `/`. */
  function Basename(p: string): (r: string)
    ensures '/' !in r
    ensures |r| <= |p| && r == p[|p| - |r|..]
    ensures |r| == |p| || p[|p| - |r| - 1] == '/'
  {
    if |p| == 0 then ""
    else if p[|p| - 1] == '/' then ""
    else
      var r := Basename(p[..|p| - 1]) + [p[|p| - 1]];
      assert p[..|p| - 1][|p| - |r|..] + [p[|p| - 1]] == p[|p| - |r|..];
      r
  }

  /** A name without a separator is its own base name. */
  lemma BasenamePlain(p: string)
    requires '/' !in p
    ensures Basename(p) == p
  {
  }

  /** Python's `s[-2:]`. */
  function Last2(s: string): (r: string)
    ensures |s| >= 2 ==> |r| == 2 && s == s[..|s| - 2] + r
    ensures |s| < 2 ==> r == s
  {
    if |s| >= 2 then s[|s| - 2..] else s
  }

  /** Python's `s[:-1]`. */
  function DropLast(s: string): (r: string)
    ensures |s| >= 1 ==> |r| == |s| - 1 && r + [s[|s| - 1]] == s
    ensures |s| == 0 ==> r == ""
  {
    if |s| == 0 then "" else s[..|s| - 1]
  }

  /** Python's `s[-1:]`. */
  function LastChar(s: string): (r: string)
    ensures |s| >= 1 ==> r == [s[|s| - 1]]
    ensures |s| == 0 ==> r == ""
  {
    if |s| == 0 then "" else s[|s| - 1..]
  }

  /** Python's `s.replace(pattern, replacement)`: every non-overlapping occurrence, left to right. */
  function ReplaceAll(s: string, pattern: string, replacement: string): string
    requires |pattern| > 0
    decreases |s|
  {
    if |s| < |pattern| then s
    else if s[..|pattern|] == pattern then replacement + ReplaceAll(s[|pattern|..], pattern, replacement)
    else [s[0]] + ReplaceAll(s[1..], pattern, replacement)
  }

  /** Deleting every `_` leaves none behind. */
  lemma {:induction false} ReplaceAllRemoves(s: string)
    ensures '_' !in ReplaceAll(s, "_", "")
    decreases |s|
  {
    if |s| >= 1 {
      ReplaceAllRemoves(s[1..]);
      if s[..1] != "_" {
        assert s[0] != '_' by { assert s[..1] == [s[0]]; }
      }
    }
  }

  /** The code points of a string, as `ord(c)` gives them. */
  function Ords(s: string): (r: seq<int>)
    ensures |r| == |s| && forall i :: 0 <= i < |s| ==> r[i] == s[i] as int
  {
    seq(|s|, i requires 0 <= i < |s| => s[i] as int)
  }
}
