/** The absent-or-present value used throughout the model (JavaScript's
    `undefined`/`null` versus a value). */
module Options {
  datatype Option<+T> = None | Some(value: T)
}

/** The string operations of JavaScript that the server relies on, over
    `seq<char>`: `toLowerCase` (ASCII letters only), `includes`, `split` on a
    single character, `join`, and the global `parseInt` with no radix. */
module Text {
  import opened Options

  // ---------------------------------------------------------------------
  // toLowerCase

  function LowerChar(c: char): char {
    if 'A' <= c <= 'Z' then (c as int + 32) as char else c
  }

  /** `s.toLowerCase()`, restricted to the ASCII letters. */
  function Lower(s: string): (r: string)
    ensures |r| == |s|
    ensures forall i :: 0 <= i < |s| ==> r[i] == LowerChar(s[i])
  {
    seq(|s|, i requires 0 <= i < |s| => LowerChar(s[i]))
  }

  lemma LowerIdempotent(s: string)
    ensures Lower(Lower(s)) == Lower(s)
  {
    assert forall i :: 0 <= i < |s| ==> LowerChar(LowerChar(s[i])) == LowerChar(s[i]);
  }

  // ---------------------------------------------------------------------
  // includes

  /** `sub` occurs in `s` starting at position `i`. */
  predicate OccursAt(s: string, sub: string, i: int) {
    0 <= i <= |s| - |sub| && s[i..i + |sub|] == sub
  }

  /** `s.includes(sub)`: `sub` occurs in `s` at some position. */
  predicate Contains(s: string, sub: string) {
    exists i :: 0 <= i <= |s| - |sub| && OccursAt(s, sub, i)
  }

  lemma ContainsEmpty(s: string)
    ensures Contains(s, "")
  {
    assert OccursAt(s, "", 0);
  }

  lemma ContainsInfix(a: string, sub: string, b: string)
    ensures Contains(a + sub + b, sub)
  {
    var s := a + sub + b;
    assert s[|a|..|a| + |sub|] == sub;
    assert OccursAt(s, sub, |a|);
  }

  /** What `includes` sees of `sub` within `s` is also seen within any
      string that has `s` as a part. */
  lemma ContainsWiden(a: string, s: string, b: string, sub: string)
    requires Contains(s, sub)
    ensures Contains(a + s + b, sub)
  {
    var i :| 0 <= i <= |s| - |sub| && OccursAt(s, sub, i);
    var t := a + s + b;
    assert t[|a| + i..|a| + i + |sub|] == s[i..i + |sub|];
    assert OccursAt(t, sub, |a| + i);
  }

  // ---------------------------------------------------------------------
  // split and join

  /** `parts.join(sep)`: the parts with `sep` between neighbours; the empty
      list joins to the empty string. */
  function Join(parts: seq<string>, sep: string): (r: string)
    ensures parts == [] ==> r == ""
    ensures |parts| == 1 ==> r == parts[0]
  {
    if |parts| == 0 then ""
    else if |parts| == 1 then parts[0]
    else parts[0] + sep + Join(parts[1..], sep)
  }

  /** Every part is a substring of the joined string. */
  lemma {:induction false} JoinContainsParts(parts: seq<string>, sep: string, k: nat)
    requires k < |parts|
    ensures Contains(Join(parts, sep), parts[k])
  {
    if |parts| == 1 {
      ContainsInfix("", parts[0], "");
      assert "" + parts[0] + "" == parts[0];
    } else if k == 0 {
      ContainsInfix("", parts[0], sep + Join(parts[1..], sep));
      assert "" + parts[0] + (sep + Join(parts[1..], sep)) == Join(parts, sep);
    } else {
      JoinContainsParts(parts[1..], sep, k - 1);
      ContainsWiden(parts[0] + sep, Join(parts[1..], sep), "", parts[k]);
      assert parts[0] + sep + Join(parts[1..], sep) + "" == Join(parts, sep);
    }
  }

  /** `s.split(sep)` for a one-character separator: the pieces between
      separators, empty pieces included; `"".split(sep)` is `[""]`. */
  function Split(s: string, sep: char): (r: seq<string>)
    ensures |r| >= 1
    ensures forall k :: 0 <= k < |r| ==> sep !in r[k]
  {
    if s == [] then [""]
    else
      var rest := Split(s[1..], sep);
      if s[0] == sep then [""] + rest
      else [[s[0]] + rest[0]] + rest[1..]
  }

  lemma JoinConsHead(c: char, p: string, ps: seq<string>, sep: string)
    ensures Join([[c] + p] + ps, sep) == [c] + Join([p] + ps, sep)
  {
    if ps != [] {
      assert ([[c] + p] + ps)[1..] == ps;
      assert ([p] + ps)[1..] == ps;
    }
  }

  /** Joining the pieces of a split with the separator gives back the string. */
  lemma {:induction false} JoinSplit(s: string, sep: char)
    ensures Join(Split(s, sep), [sep]) == s
  {
    if s != [] {
      var rest := Split(s[1..], sep);
      JoinSplit(s[1..], sep);
      if s[0] == sep {
        assert ([""] + rest)[1..] == rest;
        assert s == [sep] + s[1..];
      } else {
        JoinConsHead(s[0], rest[0], rest[1..], [sep]);
        assert [rest[0]] + rest[1..] == rest;
        assert s == [s[0]] + s[1..];
      }
    }
  }

  lemma {:induction false} SplitPrefix(a: string, b: string, sep: char)
    requires sep !in a
    ensures Split(a + [sep] + b, sep) == [a] + Split(b, sep)
  {
    if a == [] {
      assert a + [sep] + b == [sep] + b;
      assert ([sep] + b)[1..] == b;
    } else {
      var t := a + [sep] + b;
      assert t[1..] == a[1..] + [sep] + b;
      SplitPrefix(a[1..], b, sep);
      assert [a[0]] + a[1..] == a;
    }
  }

  lemma {:induction false} SplitNoSep(a: string, sep: char)
    requires sep !in a
    ensures Split(a, sep) == [a]
  {
    if a != [] {
      SplitNoSep(a[1..], sep);
      assert [a[0]] + a[1..] == a;
    }
  }

  /** Splitting a join of separator-free pieces gives back the pieces. */
  lemma {:induction false} SplitJoin(parts: seq<string>, sep: char)
    requires |parts| >= 1
    requires forall k :: 0 <= k < |parts| ==> sep !in parts[k]
    ensures Split(Join(parts, [sep]), sep) == parts
  {
    if |parts| == 1 {
      SplitNoSep(parts[0], sep);
    } else {
      SplitJoin(parts[1..], sep);
      SplitPrefix(parts[0], Join(parts[1..], [sep]), sep);
      assert [parts[0]] + parts[1..] == parts;
    }
  }

  /** A string that ends with the separator splits into pieces the last of
      which is empty. */
  lemma {:induction false} SplitTrailingSep(s: string, sep: char)
    requires s != [] && s[|s| - 1] == sep
    ensures var r := Split(s, sep); r[|r| - 1] == ""
  {
    if |s| == 1 {
      assert s[1..] == [];
    } else {
      SplitTrailingSep(s[1..], sep);
    }
  }

  // ---------------------------------------------------------------------
  // parseInt (ECMAScript section 19.2.5, radix argument absent)

  /** The characters ECMAScript counts as white space or line terminators,
      which `parseInt` skips at the start of its argument. */
  predicate IsJsWhitespace(c: char) {
    c == '\t' || c == '\n' || c == '\U{B}' || c == '\U{C}' || c == '\r' || c == ' '
    || c == '\U{A0}' || c == '\U{1680}' || ('\U{2000}' <= c <= '\U{200A}')
    || c == '\U{2028}' || c == '\U{2029}' || c == '\U{202F}' || c == '\U{205F}'
    || c == '\U{3000}' || c == '\U{FEFF}'
  }

  /** The string without its leading white space. */
  function TrimStart(s: string): (r: string)
    ensures |r| <= |s| && r == s[|s| - |r|..]
    ensures forall i :: 0 <= i < |s| - |r| ==> IsJsWhitespace(s[i])
    ensures r == [] || !IsJsWhitespace(r[0])
  {
    if s != [] && IsJsWhitespace(s[0]) then TrimStart(s[1..]) else s
  }

  /** The value of a digit character in radices up to 36; 36 for anything
      that is not a digit in any radix. */
  function DigitValue(c: char): (r: nat)
    ensures r <= 36
  {
    if '0' <= c <= '9' then c as int - '0' as int
    else if 'a' <= c <= 'z' then c as int - 'a' as int + 10
    else if 'A' <= c <= 'Z' then c as int - 'A' as int + 10
    else 36
  }

  predicate IsDigit(c: char, radix: nat) {
    DigitValue(c) < radix
  }

  /** The longest prefix of `s` made of digits of the radix. */
  function DigitPrefix(s: string, radix: nat): (r: string)
    ensures |r| <= |s| && r == s[..|r|]
    ensures forall i :: 0 <= i < |r| ==> IsDigit(r[i], radix)
    ensures |r| < |s| ==> !IsDigit(s[|r|], radix)
  {
    if s != [] && IsDigit(s[0], radix) then [s[0]] + DigitPrefix(s[1..], radix) else []
  }

  /** The number that a string of digits denotes in the radix. */
  function DigitsValue(ds: string, radix: nat): nat {
    if ds == [] then 0
    else DigitsValue(ds[..|ds| - 1], radix) * radix + DigitValue(ds[|ds| - 1])
  }

  /** The number written by a run of radix digits at the start of `u`, or
      `None` when `u` does not start with such a digit. */
  function LeadingNumber(u: string, radix: nat): Option<nat> {
    var z := DigitPrefix(u, radix);
    if z == [] then None else Some(DigitsValue(z, radix))
  }

  /** The unsigned part: a `0x`/`0X` prefix selects radix 16, otherwise the
      radix is 10. */
  function ParseUnsigned(u: string): Option<nat> {
    if |u| >= 2 && u[0] == '0' && (u[1] == 'x' || u[1] == 'X') then LeadingNumber(u[2..], 16)
    else LeadingNumber(u, 10)
  }

  /** One optional sign, then the unsigned part. */
  function ParseSigned(t: string): Option<int> {
    if t != [] && t[0] == '-' then
      match ParseUnsigned(t[1..])
      case None => None
      case Some(v) => Some(-(v as int))
    else if t != [] && t[0] == '+' then ParseUnsigned(t[1..])
    else ParseUnsigned(t)
  }

  /** `parseInt(s)`: `None` is NaN, and the argument `None` stands for an
      absent query parameter (`parseInt(undefined)` is NaN).  Leading white
      space is skipped, one sign is taken, a `0x`/`0X` prefix selects radix
      16, and the longest run of digits that follows is the number; anything
      after it is ignored. */
  function ParseInt(input: Option<string>): Option<int> {
    match input
    case None => None
    case Some(s) => ParseSigned(TrimStart(s))
  }

  /** An absent or blank parameter is NaN, and so is one whose first
      non-blank character is neither a sign nor a decimal digit. */
  lemma ParseNaN(input: Option<string>)
    ensures input.None? ==> ParseInt(input).None?
    ensures input.Some? ==> var t := TrimStart(input.value);
      (t == [] || (!IsDigit(t[0], 10) && t[0] != '-' && t[0] != '+')) ==> ParseInt(input).None?
  {
  }

  // ---------------------------------------------------------------------
  // decimal rendering, which `parseInt` reads back

  function DigitChar(d: nat): (c: char)
    requires d < 10
    ensures '0' <= c <= '9' && DigitValue(c) == d
  {
    ('0' as int + d) as char
  }

  /** The decimal numeral of `n`, as a client writes a page number. */
  function Show(n: nat): (r: string)
    ensures |r| >= 1
    ensures forall i :: 0 <= i < |r| ==> '0' <= r[i] <= '9'
  {
    if n < 10 then [DigitChar(n)] else Show(n / 10) + [DigitChar(n % 10)]
  }

  lemma {:induction false} DigitsValueShow(n: nat)
    ensures DigitsValue(Show(n), 10) == n
  {
    var s := Show(n);
    if n < 10 {
      assert s[..0] == [];
    } else {
      DigitsValueShow(n / 10);
      assert s[..|s| - 1] == Show(n / 10);
    }
  }

  /** The numeral of a positive number does not start with `0`, so it never
      forms a `0x` prefix. */
  lemma {:induction false} ShowLead(n: nat)
    requires n >= 1
    ensures Show(n)[0] != '0'
  {
    if n >= 10 {
      ShowLead(n / 10);
    }
  }

  lemma {:induction false} DigitPrefixAppend(ds: string, t: string, radix: nat)
    requires forall i :: 0 <= i < |ds| ==> IsDigit(ds[i], radix)
    requires t == [] || !IsDigit(t[0], radix)
    ensures DigitPrefix(ds + t, radix) == ds
  {
    if ds != [] {
      assert (ds + t)[1..] == ds[1..] + t;
      DigitPrefixAppend(ds[1..], t, radix);
      assert [ds[0]] + ds[1..] == ds;
    } else {
      assert ds + t == t;
    }
  }

  /** `parseInt` reads back what `Show` writes, and ignores whatever follows
      the digits as long as it is neither a digit nor an `x` right after a
      lone `0` (which would make a hexadecimal prefix). */
  lemma ParseShow(n: nat, t: string)
    requires t == [] || (!IsDigit(t[0], 10) && (n == 0 ==> t[0] != 'x' && t[0] != 'X'))
    ensures ParseInt(Some(Show(n) + t)) == Some(n)
  {
    var u := Show(n) + t;
    ParseUnsignedShow(n, t);
    ParseDigitFirst(u);
  }

  /** A string that starts with a digit has neither white space nor a sign
      in front of its unsigned part. */
  lemma ParseDigitFirst(u: string)
    requires u != [] && '0' <= u[0] <= '9'
    ensures ParseInt(Some(u)) == ParseUnsigned(u)
  {
    assert !IsJsWhitespace(u[0]);
    assert TrimStart(u) == u;
    assert ParseSigned(u) == ParseUnsigned(u);
  }

  lemma ParseUnsignedShow(n: nat, t: string)
    requires t == [] || (!IsDigit(t[0], 10) && (n == 0 ==> t[0] != 'x' && t[0] != 'X'))
    ensures ParseUnsigned(Show(n) + t) == Some(n)
  {
    var s := Show(n) + t;
    if n >= 1 {
      ShowLead(n);
    } else {
      assert |s| >= 2 ==> s[1] == t[0];
    }
    DigitPrefixAppend(Show(n), t, 10);
    DigitsValueShow(n);
  }

  /** A leading minus sign negates what the unsigned part reads. */
  lemma ParseMinus(d: string, t: string)
    ensures ParseInt(Some("-" + d + t)) ==
      match ParseUnsigned(d + t)
      case None => None
      case Some(v) => Some(-(v as int))
  {
    var s := "-" + d + t;
    assert s[1..] == d + t;
    assert TrimStart(s) == s;
  }

  /** A minus sign before a decimal numeral gives the negated number. */
  lemma ParseShowNegative(n: nat, t: string)
    requires t == [] || (!IsDigit(t[0], 10) && (n == 0 ==> t[0] != 'x' && t[0] != 'X'))
    ensures ParseInt(Some("-" + Show(n) + t)) == Some(-(n as int))
  {
    var d := Show(n);
    ParseUnsignedShow(n, t);
    assert ParseUnsigned(d + t) == Some(n);
    ParseMinus(d, t);
  }

  /** Leading white space does not change what `parseInt` reads. */
  lemma ParseSkipsWhitespace(c: char, s: string)
    requires IsJsWhitespace(c)
    ensures ParseInt(Some([c] + s)) == ParseInt(Some(s))
  {
    assert ([c] + s)[1..] == s;
  }
}
