/**
 * The JavaScript string built-ins the formatters rely on, for naturals:
 * `Number.prototype.toString(radix)` and `String.prototype.padStart`,
 * together with the digit reading that inverts them.
 */
module Text {
  import opened Wrappers

  /** The digit character for `d`, lower case above 9, as `toString(radix)` writes it. */
  function DigitChar(d: nat): (c: char)
    requires d < 16
    ensures DigitValue(c) == d
  {
    if d < 10 then ('0' as int + d) as char else ('a' as int + d - 10) as char
  }

  /** The value of a digit character in any radix up to 36 (case-insensitive), 36 for a character that is no digit. */
  function DigitValue(c: char): (v: nat)
    ensures v <= 36
  {
    if '0' <= c <= '9' then c as int - '0' as int
    else if 'a' <= c <= 'z' then c as int - 'a' as int + 10
    else if 'A' <= c <= 'Z' then c as int - 'A' as int + 10
    else 36
  }

  predicate IsDigit(c: char, radix: nat) { DigitValue(c) < radix }

  predicate AllDigits(s: string, radix: nat) { forall i :: 0 <= i < |s| ==> IsDigit(s[i], radix) }

  /** Lower-case hexadecimal digits, the only characters `toString(16)` emits. */
  predicate IsLowerHex(c: char) { '0' <= c <= '9' || 'a' <= c <= 'f' }

  /** Euclidean division by a radix: the quotient of a number of two or more digits is smaller and positive. */
  lemma DivModRadix(n: nat, radix: nat)
    requires 2 <= radix
    ensures n % radix < radix
    ensures n == (n / radix) * radix + n % radix
    ensures n >= radix ==> 1 <= n / radix < n
    ensures n < radix ==> n / radix == 0 && n % radix == n
  {
    var q, r := n / radix, n % radix;
    assert n == q * radix + r && 0 <= r < radix;
    if n >= radix {
      assert q * radix == n - r > 0;
      assert q > 0;
      assert q * (radix - 2) >= 0;
      assert q * radix >= 2 * q;
    }
  }

  /** `n.toString(radix)` for a natural `n`: its digits, most significant first, without leading zeros. */
  function NatToString(n: nat, radix: nat): (s: string)
    requires 2 <= radix <= 16
    ensures |s| >= 1
    ensures AllDigits(s, radix)
    ensures forall i :: 0 <= i < |s| ==> IsLowerHex(s[i])
    ensures (|s| == 1) == (n < radix)
    decreases n
  {
    DivModRadix(n, radix);
    if n < radix then [DigitChar(n)]
    else NatToString(n / radix, radix) + [DigitChar(n % radix)]
  }

  /** The value of a string of digits, read most significant first. */
  function ReadDigits(s: string, radix: nat): nat
  {
    if s == [] then 0
    else ReadDigits(s[..|s| - 1], radix) * radix + DigitValue(s[|s| - 1])
  }

  /** `s.padStart(width, [fill])`: `fill` repeated in front of `s` up to `width` characters. */
  function PadStart(s: string, width: nat, fill: char): (r: string)
    ensures |r| == if |s| >= width then |s| else width
    ensures r[|r| - |s|..] == s
    ensures forall i :: 0 <= i < |r| - |s| ==> r[i] == fill
  {
    if |s| >= width then s else seq(width - |s|, _ => fill) + s
  }

  /** Reading the digits `toString(radix)` wrote gives back the number. */
  lemma {:induction false} ReadNatToString(n: nat, radix: nat)
    requires 2 <= radix <= 16
    ensures ReadDigits(NatToString(n, radix), radix) == n
    decreases n
  {
    var s := NatToString(n, radix);
    if n >= radix {
      var q, d := n / radix, n % radix;
      DivModRadix(n, radix);
      ReadNatToString(q, radix);
      assert s[..|s| - 1] == NatToString(q, radix);
      assert DigitValue(s[|s| - 1]) == d;
      assert ReadDigits(s, radix) == q * radix + d;
    } else {
      assert s[..|s| - 1] == [];
    }
  }

  lemma ReadTwoDigits(c0: char, c1: char, radix: nat)
    ensures ReadDigits([c0, c1], radix) == DigitValue(c0) * radix + DigitValue(c1)
  {
    assert [c0, c1][..1] == [c0];
    assert [c0][..0] == [];
    assert ReadDigits([c0], radix) == 0 * radix + DigitValue(c0);
    assert ReadDigits([c0], radix) == DigitValue(c0);
  }

  /** Leading zeros do not change the value of a digit string. */
  lemma {:induction false} ReadLeadingZeros(k: nat, s: string, radix: nat)
    ensures ReadDigits(seq(k, _ => '0') + s, radix) == ReadDigits(s, radix)
    decreases |s|, k
  {
    var z := seq(k, _ => '0');
    if s == [] {
      if k > 0 {
        assert z + s == seq(k - 1, _ => '0') + ['0'];
        assert (z + s)[..|z + s| - 1] == seq(k - 1, _ => '0') + [];
        ReadLeadingZeros(k - 1, [], radix);
      }
    } else {
      assert (z + s)[..|z + s| - 1] == z + s[..|s| - 1];
      ReadLeadingZeros(k, s[..|s| - 1], radix);
    }
  }

  /** Padding a number's digits with zeros keeps their value. */
  lemma ReadPaddedNatToString(n: nat, width: nat, radix: nat)
    requires 2 <= radix <= 16
    ensures ReadDigits(PadStart(NatToString(n, radix), width, '0'), radix) == n
    ensures AllDigits(PadStart(NatToString(n, radix), width, '0'), radix)
  {
    var s := NatToString(n, radix);
    ReadNatToString(n, radix);
    if |s| < width {
      ReadLeadingZeros(width - |s|, s, radix);
      PaddedDigits(s, width, radix);
    }
  }

  lemma PaddedDigits(s: string, width: nat, radix: nat)
    requires 2 <= radix && AllDigits(s, radix) && |s| < width
    ensures PadStart(s, width, '0') == seq(width - |s|, _ => '0') + s
    ensures AllDigits(PadStart(s, width, '0'), radix)
  {
    var p := PadStart(s, width, '0');
    forall i | 0 <= i < |p| ensures IsDigit(p[i], radix) {
      if i >= |p| - |s| { assert p[i] == s[i - (|p| - |s|)]; }
    }
  }

  /** Multiplying by a natural keeps the order. */
  lemma MulMonotone(a: nat, b: nat, c: nat)
    ensures a >= b ==> a * c >= b * c
  {
    if a >= b {
      assert a * c == b * c + (a - b) * c;
    }
  }

  /** A number below `radix` squared has at most two digits, so padding to two gives exactly two. */
  lemma TwoDigits(n: nat, radix: nat)
    requires 2 <= radix <= 16 && n < radix * radix
    ensures |PadStart(NatToString(n, radix), 2, '0')| == 2
  {
    if n >= radix {
      var q := n / radix;
      DivModRadix(n, radix);
      MulMonotone(q, radix, radix);
      assert q < radix;
    }
  }

  /** `String.prototype.startsWith`. */
  predicate StartsWith(s: string, prefix: string)
  {
    |prefix| <= |s| && s[..|prefix|] == prefix
  }

  /** `String.prototype.includes`: `t` occurs somewhere in `s`. */
  predicate Includes(s: string, t: string)
    decreases |s|
  {
    StartsWith(s, t) || (s != [] && Includes(s[1..], t))
  }

  /** `t` occurs in `s` starting at index `i`. */
  predicate OccursAt(s: string, t: string, i: nat)
  {
    i + |t| <= |s| && s[i..i + |t|] == t
  }

  /** `includes` holds exactly when `t` occurs in `s` at some index. */
  lemma {:induction false} IncludesIffOccurs(s: string, t: string)
    ensures Includes(s, t) <==> exists i: nat :: OccursAt(s, t, i)
    decreases |s|
  {
    assert StartsWith(s, t) <==> OccursAt(s, t, 0);
    if s == [] {
      forall i: nat | OccursAt(s, t, i) ensures StartsWith(s, t) { assert i == 0; }
    } else {
      IncludesIffOccurs(s[1..], t);
      forall i: nat | OccursAt(s[1..], t, i) ensures OccursAt(s, t, i + 1) {
        assert s[1..][i..i + |t|] == s[i + 1..i + 1 + |t|];
      }
      forall i: nat | OccursAt(s, t, i) && i > 0 ensures OccursAt(s[1..], t, i - 1) {
        assert s[1..][i - 1..i - 1 + |t|] == s[i..i + |t|];
      }
    }
  }

  /** The index of the first occurrence of `c` in `s`, if any. */
  function IndexOf(s: string, c: char): (r: Option<nat>)
    ensures r.Some? ==> r.value < |s| && s[r.value] == c && c !in s[..r.value]
    ensures r.None? ==> c !in s
  {
    if s == [] then None
    else if s[0] == c then Some(0)
    else match IndexOf(s[1..], c)
      case None => None
      case Some(k) => assert s[..k + 1] == [s[0]] + s[1..][..k]; Some(k + 1)
  }

  /**
   * Reads a clock text `<digits>:<digits>` back into its two fields; the inverse the
   * formatters `m:ss` and `mm:ss` are proved against.
   */
  function ParseClock(t: string): Option<(nat, nat)>
  {
    match IndexOf(t, ':')
    case None => None
    case Some(k) =>
      var left, right := t[..k], t[k + 1..];
      if |left| > 0 && |right| > 0 && AllDigits(left, 10) && AllDigits(right, 10)
      then Some((ReadDigits(left, 10), ReadDigits(right, 10)))
      else None
  }

  /** The first `c` in `a + [c] + b` is the one after `a`, when `a` has none. */
  lemma {:induction false} IndexOfAfter(a: string, c: char, b: string)
    requires c !in a
    ensures IndexOf(a + [c] + b, c) == Some(|a|)
  {
    var t := a + [c] + b;
    if a != [] {
      assert t[0] == a[0] && t[0] != c;
      assert t[1..] == a[1..] + [c] + b;
      assert c !in a[1..] by {
        forall i | 0 <= i < |a[1..]| ensures a[1..][i] != c { assert a[1..][i] == a[i + 1]; }
      }
      IndexOfAfter(a[1..], c, b);
    }
  }

  lemma ParseClockJoin(a: string, b: string)
    requires |a| > 0 && |b| > 0 && AllDigits(a, 10) && AllDigits(b, 10)
    ensures ParseClock(a + ":" + b) == Some((ReadDigits(a, 10), ReadDigits(b, 10)))
  {
    var t := a + [':'] + b;
    assert ':' !in a by {
      forall i | 0 <= i < |a| ensures a[i] != ':' { assert IsDigit(a[i], 10); }
    }
    IndexOfAfter(a, ':', b);
    assert t[..|a|] == a && t[|a| + 1..] == b;
    assert a + ":" + b == t;
  }
}
