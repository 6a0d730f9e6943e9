/** The JavaScript string operations the market-creation page relies on,
    written out on `seq<char>`: `split` on one separator character, `trim`,
    `substring`, and `Number.prototype.toString` on integers. Characters are
    Unicode code points (not UTF-16 code units). */
module JsString {

  /** The characters `String.prototype.trim` removes: ECMAScript's WhiteSpace
      (tab, vertical tab, form feed, space, no-break space, byte-order mark and
      the space separators of category Zs) and LineTerminator (line feed,
      carriage return, line and paragraph separators). */
  predicate IsWhitespace(c: char) {
    c == '\t' || c == '\n' || c == '\U{B}' || c == '\U{C}' || c == '\r' || c == ' '
    || c == '\U{A0}' || c == '\U{1680}' || ('\U{2000}' <= c <= '\U{200A}')
    || c == '\U{2028}' || c == '\U{2029}' || c == '\U{202F}' || c == '\U{205F}'
    || c == '\U{3000}' || c == '\U{FEFF}'
  }

  predicate AllWhitespace(s: string) {
    forall k :: 0 <= k < |s| ==> IsWhitespace(s[k])
  }

  /** A string that `trim` leaves as it is: empty, or neither starting nor
      ending with whitespace. */
  predicate IsTrimmed(s: string) {
    s == [] || (!IsWhitespace(s[0]) && !IsWhitespace(s[|s| - 1]))
  }

  // ---------------------------------------------------------------------
  // split

  /** `s.split(sep)`: the maximal separator-free pieces of `s`, in order.
      Like JavaScript, the empty string splits into one empty piece and two
      adjacent separators produce an empty piece between them. */
  function Split(s: string, sep: char): (pieces: seq<string>)
    ensures |pieces| >= 1
    ensures forall i :: 0 <= i < |pieces| ==> sep !in pieces[i]
    decreases |s|
  {
    if |s| == 0 then [""]
    else
      var rest := Split(s[1..], sep);
      if s[0] == sep then [""] + rest
      else [[s[0]] + rest[0]] + rest[1..]
  }

  /** `pieces.join(sep)`, the inverse of `Split`. */
  function Join(pieces: seq<string>, sep: char): string
    requires |pieces| >= 1
    decreases |pieces|
  {
    if |pieces| == 1 then pieces[0] else pieces[0] + [sep] + Join(pieces[1..], sep)
  }

  /** Joining the pieces back with the separator gives the original string. */
  lemma {:induction false} JoinSplit(s: string, sep: char)
    ensures Join(Split(s, sep), sep) == s
    decreases |s|
  {
    if |s| > 0 {
      JoinSplit(s[1..], sep);
      var rest := Split(s[1..], sep);
      if s[0] == sep {
        assert Split(s, sep) == [""] + rest;
        assert ([""] + rest)[1..] == rest;
        assert s == [sep] + s[1..];
      } else {
        var pieces := Split(s, sep);
        assert pieces == [[s[0]] + rest[0]] + rest[1..];
        if |rest| == 1 {
          assert s == [s[0]] + s[1..];
        } else {
          assert pieces[1..] == rest[1..];
          assert Join(rest, sep) == rest[0] + [sep] + Join(rest[1..], sep);
          assert s == [s[0]] + s[1..];
        }
      }
    }
  }

  /** A string without the separator is a single piece. */
  lemma {:induction false} SplitNoSeparator(s: string, sep: char)
    requires sep !in s
    ensures Split(s, sep) == [s]
    decreases |s|
  {
    if |s| > 0 {
      assert s[0] in s;
      assert forall c :: c in s[1..] ==> c in s;
      SplitNoSeparator(s[1..], sep);
      assert [s[0]] + s[1..] == s;
    }
  }

  /** Splitting distributes over a separator: the pieces of `a + sep + b` are
      the pieces of `a` followed by the pieces of `b`. */
  lemma {:induction false} SplitAppend(a: string, b: string, sep: char)
    ensures Split(a + [sep] + b, sep) == Split(a, sep) + Split(b, sep)
    decreases |a|
  {
    var s := a + [sep] + b;
    if |a| == 0 {
      assert s[0] == sep && s[1..] == b;
    } else {
      assert s[0] == a[0];
      assert s[1..] == a[1..] + [sep] + b;
      SplitAppend(a[1..], b, sep);
      var ra := Split(a[1..], sep);
      var rb := Split(b, sep);
      if a[0] == sep {
        assert Split(s, sep) == [""] + (ra + rb);
      } else {
        assert (ra + rb)[0] == ra[0];
        assert (ra + rb)[1..] == ra[1..] + rb;
      }
    }
  }

  /** Splitting a join of separator-free pieces gives the pieces back. */
  lemma {:induction false} SplitJoin(pieces: seq<string>, sep: char)
    requires |pieces| >= 1
    requires forall i :: 0 <= i < |pieces| ==> sep !in pieces[i]
    ensures Split(Join(pieces, sep), sep) == pieces
    decreases |pieces|
  {
    if |pieces| == 1 {
      SplitNoSeparator(pieces[0], sep);
    } else {
      SplitNoSeparator(pieces[0], sep);
      SplitJoin(pieces[1..], sep);
      SplitAppend(pieces[0], Join(pieces[1..], sep), sep);
      assert [pieces[0]] + pieces[1..] == pieces;
    }
  }

  // ---------------------------------------------------------------------
  // trim

  /** `s.trimStart()`: `s` without its leading whitespace. */
  function TrimStart(s: string): (r: string)
    ensures |r| <= |s|
    decreases |s|
  {
    if |s| > 0 && IsWhitespace(s[0]) then TrimStart(s[1..]) else s
  }

  /** `s.trimEnd()`: `s` without its trailing whitespace. */
  function TrimEnd(s: string): (r: string)
    ensures |r| <= |s|
    decreases |s|
  {
    if |s| > 0 && IsWhitespace(s[|s| - 1]) then TrimEnd(s[..|s| - 1]) else s
  }

  /** `s.trim()`. */
  function Trim(s: string): (r: string)
    ensures |r| <= |s|
  {
    TrimEnd(TrimStart(s))
  }

  /** `TrimStart` drops a whitespace prefix and keeps the rest, which does
      not start with whitespace. */
  lemma {:induction false} TrimStartSpec(s: string)
    ensures var r := TrimStart(s);
      r == s[|s| - |r|..] && AllWhitespace(s[..|s| - |r|]) && (r == [] || !IsWhitespace(r[0]))
    decreases |s|
  {
    if |s| > 0 && IsWhitespace(s[0]) {
      TrimStartSpec(s[1..]);
      var r := TrimStart(s);
      assert s[..|s| - |r|] == [s[0]] + s[1..][..|s| - 1 - |r|];
    }
  }

  /** `TrimEnd` drops a whitespace suffix and keeps the rest, which does not
      end with whitespace. */
  lemma {:induction false} TrimEndSpec(s: string)
    ensures var r := TrimEnd(s);
      r == s[..|r|] && AllWhitespace(s[|r|..]) && (r == [] || !IsWhitespace(r[|r| - 1]))
    decreases |s|
  {
    if |s| > 0 && IsWhitespace(s[|s| - 1]) {
      TrimEndSpec(s[..|s| - 1]);
      var r := TrimEnd(s);
      assert s[|r|..] == s[..|s| - 1][|r|..] + [s[|s| - 1]];
    }
  }

  /** `Trim` keeps the middle of the string: `s` is some whitespace, then
      `Trim(s)`, then some more whitespace. */
  lemma TrimDecompose(s: string)
    ensures var t := TrimStart(s);
      s == s[..|s| - |t|] + Trim(s) + t[|Trim(s)|..]
      && AllWhitespace(s[..|s| - |t|]) && AllWhitespace(t[|Trim(s)|..])
  {
    var t := TrimStart(s);
    TrimStartSpec(s);
    TrimEndSpec(t);
    assert s == s[..|s| - |t|] + t;
    assert t == Trim(s) + t[|Trim(s)|..];
  }

  /** What `Trim` returns neither starts nor ends with whitespace. */
  lemma TrimIsTrimmed(s: string)
    ensures IsTrimmed(Trim(s))
  {
    var t := TrimStart(s);
    var r := Trim(s);
    TrimStartSpec(s);
    TrimEndSpec(t);
    if r != [] {
      assert r[0] == t[0];
    }
  }

  /** `Trim(s)` is empty exactly when `s` is all whitespace. */
  lemma TrimBlank(s: string)
    ensures Trim(s) == [] <==> AllWhitespace(s)
  {
    var t := TrimStart(s);
    TrimStartSpec(s);
    TrimEndSpec(t);
    var u := s[..|s| - |t|];
    assert s == u + t;
    if Trim(s) == [] {
      assert AllWhitespace(t);
      assert t == [];
      assert s == u;
    }
    if AllWhitespace(s) {
      assert t == [];
    }
  }

  /** Whitespace in front of a string that does not start with whitespace is
      all `TrimStart` removes. */
  lemma {:induction false} TrimStartOfWhitespacePrefix(u: string, r: string)
    requires AllWhitespace(u)
    requires r == [] || !IsWhitespace(r[0])
    ensures TrimStart(u + r) == r
    decreases |u|
  {
    if |u| > 0 {
      assert (u + r)[1..] == u[1..] + r;
      TrimStartOfWhitespacePrefix(u[1..], r);
    } else {
      assert u + r == r;
    }
  }

  /** Whitespace after a string that does not end with whitespace is all
      `TrimEnd` removes. */
  lemma {:induction false} TrimEndOfWhitespaceSuffix(r: string, v: string)
    requires AllWhitespace(v)
    requires r == [] || !IsWhitespace(r[|r| - 1])
    ensures TrimEnd(r + v) == r
    decreases |v|
  {
    if |v| > 0 {
      assert (r + v)[..|r + v| - 1] == r + v[..|v| - 1];
      TrimEndOfWhitespaceSuffix(r, v[..|v| - 1]);
    } else {
      assert r + v == r;
    }
  }

  /** `Trim` removes exactly the surrounding whitespace: whatever whitespace
      is put around a trimmed string, trimming gives that string back. */
  lemma TrimExact(u: string, r: string, v: string)
    requires AllWhitespace(u) && AllWhitespace(v) && IsTrimmed(r)
    ensures Trim(u + r + v) == r
  {
    if r == [] {
      assert u + r + v == u + v;
      assert AllWhitespace(u + v);
      TrimBlank(u + v);
    } else {
      assert u + r + v == u + (r + v);
      TrimStartOfWhitespacePrefix(u, r + v);
      TrimEndOfWhitespaceSuffix(r, v);
    }
  }

  /** A trimmed string is left as it is. */
  lemma TrimOfTrimmed(s: string)
    requires IsTrimmed(s)
    ensures Trim(s) == s
  {
    TrimExact("", s, "");
    assert "" + s + "" == s;
  }

  // ---------------------------------------------------------------------
  // substring

  function Clamp(x: int, len: nat): (r: nat)
    ensures r <= len
  {
    if x < 0 then 0 else if x > len then len else x
  }

  /** `s.substring(start, end)`: both indices are clamped to `[0, |s|]` and
      swapped when `start > end`. */
  function Substring(s: string, start: int, end: int): (r: string)
    ensures |r| <= |s|
    ensures var lo := if start <= end then start else end;
      var hi := if start <= end then end else start;
      r == s[Clamp(lo, |s|)..Clamp(hi, |s|)]
  {
    var a := Clamp(start, |s|);
    var b := Clamp(end, |s|);
    if a <= b then s[a..b] else s[b..a]
  }

  /** `s.substring(0, n)` is the first `min(n, |s|)` characters of `s`. */
  lemma SubstringPrefix(s: string, n: nat)
    ensures var r := Substring(s, 0, n);
      |r| == (if n < |s| then n else |s|) && r == s[..|r|]
  {
  }

  // ---------------------------------------------------------------------
  // Number.prototype.toString on integers

  function DigitChar(d: nat): (c: char)
    requires d < 10
    ensures '0' <= c <= '9' && (c as int) - ('0' as int) == d
  {
    (('0' as int) + d) as char
  }

  predicate IsDigits(s: string) {
    forall i :: 0 <= i < |s| ==> '0' <= s[i] <= '9'
  }

  /** Decimal text of a natural number, as `toString` writes it: at least
      one digit and no leading zero. */
  function NatToDecimal(n: nat): (r: string)
    ensures |r| >= 1 && IsDigits(r)
    ensures r[0] == '0' ==> r == "0"
    decreases n
  {
    if n < 10 then [DigitChar(n)] else NatToDecimal(n / 10) + [DigitChar(n % 10)]
  }

  /** The number a string of decimal digits denotes. */
  function DecimalValue(s: string): nat
    requires IsDigits(s)
    decreases |s|
  {
    if s == [] then 0
    else 10 * DecimalValue(s[..|s| - 1]) + ((s[|s| - 1] as int) - ('0' as int))
  }

  /** The decimal text of `n` denotes `n`. */
  lemma {:induction false} DecimalRoundTrip(n: nat)
    ensures DecimalValue(NatToDecimal(n)) == n
    decreases n
  {
    if n >= 10 {
      DecimalRoundTrip(n / 10);
      var r := NatToDecimal(n);
      assert r[..|r| - 1] == NatToDecimal(n / 10);
    }
  }

  /** `String(i)` for an integer: an optional minus sign, then its digits.
      The text is canonical and reads back as `i`. */
  function IntToDecimal(i: int): (r: string)
    ensures IsIntegerText(r) && IntegerValue(r) == i
  {
    if i < 0 then
      DecimalRoundTrip(-i);
      var r := "-" + NatToDecimal(-i);
      assert r[1..] == NatToDecimal(-i);
      r
    else
      DecimalRoundTrip(i);
      NatToDecimal(i)
  }

  /** Text an integer's `toString` can produce: an optional `-` and then
      digits without a leading zero, and no `-0`. */
  predicate IsIntegerText(s: string) {
    var digits := if |s| > 0 && s[0] == '-' then s[1..] else s;
    |digits| >= 1 && IsDigits(digits) && (digits[0] == '0' ==> s == "0")
  }

  function IntegerValue(s: string): int
    requires IsIntegerText(s)
  {
    if s[0] == '-' then 0 - DecimalValue(s[1..]) else DecimalValue(s) as int
  }
}
