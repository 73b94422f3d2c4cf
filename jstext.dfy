/**
 * The slice of JavaScript value and string semantics that the mention
 * directive relies on: truthiness, `String(v)`, `substring`, `charAt`,
 * `trim`, `toLowerCase`, `includes`, `startsWith` and `fromCharCode`.
 * Strings are Dafny strings; lower-casing is ASCII only.
 */
module JsText {

  /** `null`/`undefined` on one side, a present value on the other. */
  datatype Option<+T> = None | Some(value: T)

  /** A TypeError: a property named `name` was read or set on `undefined`. */
  datatype TypeError = UndefinedProperty(name: string)

  /** The value of an expression that may throw. */
  datatype Result<+T> = Ok(value: T) | Fail(error: TypeError)

  /** A JavaScript value as far as the directive compares, tests and concatenates it. */
  datatype JsValue = Undefined | Num(n: int) | Str(s: string)

  /** `!!v` */
  predicate Truthy(v: JsValue)
  {
    match v
    case Undefined => false
    case Num(n) => n != 0
    case Str(s) => s != ""
  }

  predicate IsDigit(c: char)
  {
    '0' <= c <= '9'
  }

  function DigitChar(d: nat): (c: char)
    requires d < 10
    ensures IsDigit(c) && (c as int) - ('0' as int) == d
  {
    ('0' as int + d) as char
  }

  /** The decimal rendering of a natural number, most significant digit first, without
      leading zeros. */
  function NatToDecimal(n: nat): (r: string)
    ensures |r| >= 1
    ensures forall i :: 0 <= i < |r| ==> IsDigit(r[i])
    ensures r[0] == '0' <==> n == 0
    ensures |r| == 1 || r[0] != '0'
  {
    if n < 10 then [DigitChar(n)] else NatToDecimal(n / 10) + [DigitChar(n % 10)]
  }

  /** The number a string of decimal digits denotes; the inverse of NatToDecimal. */
  function DecimalValue(s: string): int
    requires forall i :: 0 <= i < |s| ==> IsDigit(s[i])
  {
    if s == [] then 0 else DecimalValue(s[..|s| - 1]) * 10 + ((s[|s| - 1] as int) - ('0' as int))
  }

  lemma {:induction false} DecimalRoundTrip(n: nat)
    ensures DecimalValue(NatToDecimal(n)) == n
  {
    if n >= 10 {
      var r := NatToDecimal(n);
      assert r[..|r| - 1] == NatToDecimal(n / 10);
      DecimalRoundTrip(n / 10);
    }
  }

  /** `String(n)` for an integer-valued number. */
  function IntToDecimal(n: int): (r: string)
  {
    if n < 0 then "-" + NatToDecimal(-n) else NatToDecimal(n)
  }

  /** `String(v)`, as used by `+` on a string and by `toString()`. */
  function ToStr(v: JsValue): string
  {
    match v
    case Undefined => "undefined"
    case Num(n) => IntToDecimal(n)
    case Str(s) => s
  }

  /** Every number renders as a non-empty string, so does every truthy value. */
  lemma TruthyRendersNonEmpty(v: JsValue)
    requires Truthy(v)
    ensures ToStr(v) != ""
  {
  }

  /** `substring` clamps each index into `[0, |s|]`. */
  function Clamp(x: int, len: nat): (r: nat)
    ensures r <= len
    ensures 0 <= x <= len ==> r == x
  {
    if x < 0 then 0 else if x > len then len else x
  }

  /** `s.substring(a, b)`: both indices clamped, then swapped when `a > b`. */
  function Substring(s: string, a: int, b: int): (r: string)
    ensures |r| <= |s|
    ensures 0 <= a <= b <= |s| ==> r == s[a..b]
  {
    var i, j := Clamp(a, |s|), Clamp(b, |s|);
    if i <= j then s[i..j] else s[j..i]
  }

  /** Swapping the arguments of `substring` never changes its result. */
  lemma SubstringSymmetric(s: string, a: int, b: int)
    ensures Substring(s, a, b) == Substring(s, b, a)
  {
  }

  /** `s.charAt(i)`: the one-character string at `i`, or "" out of range. */
  function CharAt(s: string, i: int): (r: string)
    ensures |r| <= 1
    ensures 0 <= i < |s| <==> r != ""
    ensures 0 <= i < |s| ==> r == [s[i]]
  {
    if 0 <= i < |s| then [s[i]] else ""
  }

  /** `s.startsWith(t)` */
  predicate StartsWith(s: string, t: string)
  {
    |t| <= |s| && s[..|t|] == t
  }

  /** `t` occurs in `s` at offset `i`. */
  predicate OccursAt(s: string, t: string, i: int)
  {
    0 <= i && i + |t| <= |s| && s[i..i + |t|] == t
  }

  /** `s.includes(t)`, by scanning suffixes. */
  predicate Includes(s: string, t: string)
    decreases |s|
  {
    StartsWith(s, t) || (s != [] && Includes(s[1..], t))
  }

  /** `includes` is exactly "occurs at some offset". */
  lemma {:induction false} IncludesIffOccurs(s: string, t: string)
    ensures Includes(s, t) <==> exists i :: OccursAt(s, t, i)
    decreases |s|
  {
    if StartsWith(s, t) {
      assert OccursAt(s, t, 0);
    } else if s != [] {
      IncludesIffOccurs(s[1..], t);
      if exists i :: OccursAt(s[1..], t, i) {
        var i :| OccursAt(s[1..], t, i);
        assert s[1..][i..i + |t|] == s[i + 1..i + 1 + |t|];
        assert OccursAt(s, t, i + 1);
      }
      if exists i :: OccursAt(s, t, i) {
        var i :| OccursAt(s, t, i);
        assert i != 0;
        assert s[1..][i - 1..i - 1 + |t|] == s[i..i + |t|];
        assert OccursAt(s[1..], t, i - 1);
      }
    }
  }

  /** The empty string is included in every string. */
  lemma IncludesEmpty(s: string)
    ensures Includes(s, "")
  {
  }

  /** `s.indexOf(c)` for a one-character `c`: the first offset holding `c`, or -1. */
  function IndexOf(s: string, c: char): (r: int)
    ensures -1 <= r < |s|
    ensures r >= 0 ==> s[r] == c
    decreases |s|
  {
    if s == [] then -1
    else if s[0] == c then 0
    else
      var i := IndexOf(s[1..], c);
      if i < 0 then -1 else i + 1
  }

  /** `indexOf` finds the first occurrence, and -1 means there is none. */
  lemma {:induction false} IndexOfFirst(s: string, c: char)
    ensures IndexOf(s, c) == -1 <==> c !in s
    ensures forall i :: 0 <= i < IndexOf(s, c) ==> s[i] != c
    decreases |s|
  {
    if s != [] && s[0] != c {
      IndexOfFirst(s[1..], c);
      assert s == [s[0]] + s[1..];
      forall i | 0 <= i < IndexOf(s, c) ensures s[i] != c {
        if i > 0 {
          assert s[i] == s[1..][i - 1];
        }
      }
    }
  }

  /** The characters that `String.prototype.trim` removes (WhiteSpace and LineTerminator). */
  predicate IsJsSpace(c: char)
  {
    var n := c as int;
    || 0x09 <= n <= 0x0D || n == 0x20 || n == 0xA0 || n == 0x1680
    || 0x2000 <= n <= 0x200A
    || n == 0x2028 || n == 0x2029 || n == 0x202F || n == 0x205F
    || n == 0x3000 || n == 0xFEFF
  }

  /** `s` without its leading white space. */
  function TrimStart(s: string): (r: string)
    ensures |r| <= |s| && r == s[|s| - |r|..]
    ensures r == [] || !IsJsSpace(r[0])
  {
    if s != [] && IsJsSpace(s[0]) then TrimStart(s[1..]) else s
  }

  /** `s` without its trailing white space. */
  function TrimEnd(s: string): (r: string)
    ensures |r| <= |s| && r == s[..|r|]
    ensures r == [] || !IsJsSpace(r[|r| - 1])
  {
    if s != [] && IsJsSpace(s[|s| - 1]) then TrimEnd(s[..|s| - 1]) else s
  }

  /** Everything `TrimStart` drops is white space. */
  lemma {:induction false} TrimStartDropsSpace(s: string)
    ensures forall i :: 0 <= i < |s| - |TrimStart(s)| ==> IsJsSpace(s[i])
    decreases |s|
  {
    if s != [] && IsJsSpace(s[0]) {
      TrimStartDropsSpace(s[1..]);
      forall i | 1 <= i < |s| - |TrimStart(s)|
        ensures IsJsSpace(s[i])
      {
        assert s[i] == s[1..][i - 1];
      }
    }
  }

  /** Everything `TrimEnd` drops is white space. */
  lemma {:induction false} TrimEndDropsSpace(s: string)
    ensures forall i :: |TrimEnd(s)| <= i < |s| ==> IsJsSpace(s[i])
    decreases |s|
  {
    if s != [] && IsJsSpace(s[|s| - 1]) {
      TrimEndDropsSpace(s[..|s| - 1]);
      forall i | |TrimEnd(s)| <= i < |s| - 1
        ensures IsJsSpace(s[i])
      {
        assert s[i] == s[..|s| - 1][i];
      }
    }
  }

  /** `s.trim()` */
  function Trim(s: string): string
  {
    TrimEnd(TrimStart(s))
  }

  /** What `TrimEnd` drops from a suffix of `s` is white space of `s`. */
  lemma TrimEndDropsSpaceOf(s: string, i: nat)
    requires i <= |s|
    ensures forall k :: i + |TrimEnd(s[i..])| <= k < |s| ==> IsJsSpace(s[k])
  {
    var a := s[i..];
    TrimEndDropsSpace(a);
    forall k | i + |TrimEnd(a)| <= k < |s|
      ensures IsJsSpace(s[k])
    {
      assert s[k] == a[k - i];
    }
  }

  /** `trim` yields the contiguous piece of its input that starts after the leading white
      space, and everything it drops before and after that piece is white space. */
  lemma TrimShape(s: string)
    ensures var i, j := |s| - |TrimStart(s)|, |s| - |TrimStart(s)| + |Trim(s)|;
            && 0 <= i <= j <= |s| && Trim(s) == s[i..j]
            && (forall k :: 0 <= k < i ==> IsJsSpace(s[k]))
            && (forall k :: j <= k < |s| ==> IsJsSpace(s[k]))
  {
    var i := |s| - |TrimStart(s)|;
    assert TrimStart(s) == s[i..];
    TrimStartDropsSpace(s);
    TrimEndDropsSpace(s[i..]);
    TrimEndDropsSpaceOf(s, i);
    assert Trim(s) == s[i..][..|Trim(s)|];
  }

  /** The piece `trim` keeps has no white space at either end. */
  lemma TrimEnds(s: string)
    ensures Trim(s) == [] || (!IsJsSpace(Trim(s)[0]) && !IsJsSpace(Trim(s)[|Trim(s)| - 1]))
  {
    var a := TrimStart(s);
    var b := TrimEnd(a);
    if b != [] {
      assert b[0] == a[0];
    }
  }

  /** A string without white space at either end is its own trim. */
  lemma {:induction false} TrimIdentity(s: string)
    requires s == [] || (!IsJsSpace(s[0]) && !IsJsSpace(s[|s| - 1]))
    ensures Trim(s) == s
  {
  }

  /** A string that does not start with white space keeps its offsets under `trim`: the
      trimmed string is a prefix of it. */
  lemma TrimKeepsOffsets(s: string)
    requires s == [] || !IsJsSpace(s[0])
    ensures Trim(s) == s[..|Trim(s)|]
  {
  }

  /** ASCII `toLowerCase` of one character. */
  function LowerChar(c: char): char
  {
    if 'A' <= c <= 'Z' then (c as int + 32) as char else c
  }

  /** `s.toLowerCase()`, restricted to ASCII letters. */
  function ToLower(s: string): (r: string)
    ensures |r| == |s|
    ensures forall i :: 0 <= i < |s| ==> r[i] == LowerChar(s[i])
  {
    seq(|s|, i requires 0 <= i < |s| => LowerChar(s[i]))
  }

  /** Lower-casing twice is lower-casing once. */
  lemma ToLowerIdempotent(s: string)
    ensures ToLower(ToLower(s)) == ToLower(s)
  {
  }

  /** `String.fromCharCode(n)`: one UTF-16 code unit, `n` reduced modulo 2^16; a lone
      surrogate, which a Dafny character cannot hold, becomes U+FFFD. */
  function FromCharCode(n: int): (r: string)
    ensures |r| == 1
    ensures var u := n % 0x1_0000; (u < 0xD800 || 0xDFFF < u) ==> r[0] as int == u
  {
    var u := n % 0x1_0000;
    if 0xD800 <= u <= 0xDFFF then [0xFFFD as char] else [u as char]
  }
}
