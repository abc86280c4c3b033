/** String helpers with the semantics of the PHP and JavaScript built-ins the source calls. */
module Text {

  /** ASCII upper-case letters become lower case; every other character is kept
      (PHP 8's `strtolower`; JavaScript's `toLowerCase` on ASCII text). */
  function LowerChar(c: char): char {
    if 'A' <= c <= 'Z' then (c as int + 32) as char else c
  }

  function Lower(s: string): (r: string)
    ensures |r| == |s|
    ensures forall i :: 0 <= i < |s| ==> r[i] == LowerChar(s[i])
  {
    if s == [] then [] else [LowerChar(s[0])] + Lower(s[1..])
  }

  lemma {:induction false} LowerIdempotent(s: string)
    ensures Lower(Lower(s)) == Lower(s)
  {
    if s != [] {
      LowerIdempotent(s[1..]);
    }
  }

  /** The characters PHP's `trim` strips: space, tab, newline, carriage return, NUL, vertical tab. */
  predicate PhpSpace(c: char) {
    c == ' ' || c == '\t' || c == '\n' || c == '\r' || c == '\0' || c == '\U{B}'
  }

  /** The characters JavaScript's `String.prototype.trim` strips: white space and line terminators. */
  predicate JsSpace(c: char) {
    c == ' ' || c == '\t' || c == '\n' || c == '\U{B}' || c == '\U{C}' || c == '\r'
    || c == '\U{A0}' || c == '\U{1680}' || ('\U{2000}' <= c <= '\U{200A}')
    || c == '\U{2028}' || c == '\U{2029}' || c == '\U{202F}' || c == '\U{205F}'
    || c == '\U{3000}' || c == '\U{FEFF}'
  }

  /** Drops the leading characters that satisfy `ws`. */
  function TrimStart(s: string, ws: char -> bool): (r: string)
    ensures |r| <= |s|
    ensures r != [] ==> !ws(r[0])
  {
    if s != [] && ws(s[0]) then TrimStart(s[1..], ws) else s
  }

  /** `TrimStart` keeps a suffix and drops only `ws` characters. */
  lemma {:induction false} TrimStartSuffix(s: string, ws: char -> bool)
    ensures var r := TrimStart(s, ws);
      r == s[|s| - |r|..] && forall i :: 0 <= i < |s| - |r| ==> ws(s[i])
  {
    if s != [] && ws(s[0]) {
      TrimStartSuffix(s[1..], ws);
      assert forall i :: 1 <= i < |s| ==> s[i] == s[1..][i - 1];
    }
  }

  /** Drops the trailing characters that satisfy `ws`. */
  function TrimEnd(s: string, ws: char -> bool): (r: string)
    ensures |r| <= |s|
    ensures r != [] ==> !ws(r[|r| - 1])
  {
    if s != [] && ws(s[|s| - 1]) then TrimEnd(s[..|s| - 1], ws) else s
  }

  /** `TrimEnd` keeps a prefix and drops only `ws` characters. */
  lemma {:induction false} TrimEndPrefix(s: string, ws: char -> bool)
    ensures var r := TrimEnd(s, ws);
      r == s[..|r|] && forall i :: |r| <= i < |s| ==> ws(s[i])
  {
    if s != [] && ws(s[|s| - 1]) {
      TrimEndPrefix(s[..|s| - 1], ws);
    }
  }

  /** `r` is `s` with the first `k` characters and everything after `k + |r|` cut off,
      and every character cut off satisfies `ws`. */
  predicate TrimmedAt(s: string, r: string, k: nat, ws: char -> bool) {
    && k + |r| <= |s| && r == s[k..k + |r|]
    && (forall i :: 0 <= i < k ==> ws(s[i]))
    && (forall i :: k + |r| <= i < |s| ==> ws(s[i]))
  }

  /** `trim`: `s` without its leading and trailing `ws` characters. */
  function Trim(s: string, ws: char -> bool): (r: string)
    ensures |r| <= |s|
    ensures r != [] ==> !ws(r[0]) && !ws(r[|r| - 1])
  {
    var t := TrimStart(s, ws);
    var r := TrimEnd(t, ws);
    assert r != [] ==> r[0] == t[0] by {
      TrimEndPrefix(t, ws);
    }
    r
  }

  /** What `Trim` keeps is an infix of `s`, and everything it cuts off on either side is a
      `ws` character. */
  lemma TrimCutsOnlySpaces(s: string, ws: char -> bool)
    ensures exists k: nat :: TrimmedAt(s, Trim(s, ws), k, ws)
  {
    var t := TrimStart(s, ws);
    var r := TrimEnd(t, ws);
    var k := |s| - |t|;
    TrimStartSuffix(s, ws);
    TrimEndPrefix(t, ws);
    forall i | k + |r| <= i < |s| ensures ws(s[i]) {
      assert s[i] == t[i - k];
    }
    assert r == s[k..k + |r|];
    assert forall i :: 0 <= i < k ==> ws(s[i]);
    assert Trim(s, ws) == r;
    assert TrimmedAt(s, r, k, ws);
  }

  /** PHP's truthiness test on a string: `""` and `"0"` are the only false strings. */
  predicate PhpFalsy(s: string) {
    s == "" || s == "0"
  }

  /** `sub` occurs in `s` at some position (JavaScript's `includes`). */
  predicate Contains(s: string, sub: string) {
    |sub| <= |s| && (sub == s[..|sub|] || Contains(s[1..], sub))
  }

  lemma {:induction false} ContainsAt(s: string, sub: string, k: nat)
    requires k + |sub| <= |s| && s[k..k + |sub|] == sub
    ensures Contains(s, sub)
  {
    if k > 0 {
      ContainsAt(s[1..], sub, k - 1);
      assert s[1..][k - 1..k - 1 + |sub|] == s[k..k + |sub|];
    }
  }

  /** The list joined with `sep` between consecutive elements (JavaScript's `join`). */
  function Join(parts: seq<string>, sep: string): string {
    if parts == [] then ""
    else if |parts| == 1 then parts[0]
    else parts[0] + sep + Join(parts[1..], sep)
  }

  /** Decimal digits of a natural number, as JavaScript prints an integer. */
  function NatToString(n: nat): (r: string)
    ensures |r| >= 1
    ensures forall i :: 0 <= i < |r| ==> '0' <= r[i] <= '9'
    decreases n
  {
    var d := [(48 + n % 10) as char];
    if n < 10 then d else NatToString(n / 10) + d
  }
}
