/** CIM object paths (OW_CIMObjectPath.cpp): escaping, printing and the quote-aware parser. */
module ObjectPath {
  const BACKSPACE: char := '\U{8}'
  const FORMFEED: char := '\U{C}'
  const REPLACEMENT: char := '\U{FFFD}'

  // ---------------------------------------------------------------- escape

  function Esc(c: char): (r: string)
    ensures 1 <= |r| <= 2
  {
    if c == BACKSPACE then "\\b" else if c == '\t' then "\\t" else if c == '\n' then "\\n" else if c == FORMFEED then "\\f"
    else if c == '\r' then "\\r" else if c == '\"' then "\\\"" else if c == '\\' then "\\\\" else [c]
  }

  /** The escaped form of `s` from `i` on. */
  function Escaped(s: string, i: nat): string
    requires i <= |s|
    decreases |s| - i
  {
    if i == |s| then "" else Esc(s[i]) + Escaped(s, i + 1)
  }

  method Escape(s: string) returns (rv: string)
    ensures rv == Escaped(s, 0)
  {
    rv := "";
    for i := 0 to |s|
      invariant rv + Escaped(s, i) == Escaped(s, 0)
    {
      rv := rv + Esc(s[i]);
    }
  }

  // ---------------------------------------------------------------- unescape

  function HexDigit(c: char): int {
    if '0' <= c <= '9' then c as int - '0' as int
    else if 'a' <= c <= 'f' then c as int - 'a' as int + 10
    else if 'A' <= c <= 'F' then c as int - 'A' as int + 10 else -1
  }

  /** How many hex digits, four at most, follow the `x` at `at`. */
  function HexCount(s: string, at: nat, j: nat): (n: nat)
    requires j <= 4
    ensures j <= n <= 4 && (at + j < |s| ==> at + n < |s|)
    decreases 4 - j
  {
    if j < 4 && at + j + 1 < |s| && HexDigit(s[at + j + 1]) >= 0 then HexCount(s, at, j + 1) else j
  }

  function HexValue(s: string, at: nat, n: nat): nat
    requires at + n < |s| || n == 0
  {
    if n == 0 then 0 else HexValue(s, at, n - 1) * 16 + (if HexDigit(s[at + n]) >= 0 then HexDigit(s[at + n]) else 0)
  }

  function HexText(s: string, at: nat, n: nat): string
    requires at + n < |s| || n == 0
  {
    if n == 0 then "" else if HexValue(s, at, n) > 127 then [REPLACEMENT] else [HexValue(s, at, n) as char]
  }

  function Simple(c: char): string {
    if c == 'b' then [BACKSPACE] else if c == 't' then "\t" else if c == 'n' then "\n" else if c == 'f' then [FORMFEED]
    else if c == 'r' then "\r" else if c == '\"' then "\"" else if c == '\'' then "'" else if c == '\\' then "\\"
    else ['\\', c]
  }

  /** The text that `s` from `i` on stands for. */
  function Unescaped(s: string, i: nat): string
    requires i <= |s|
    decreases |s| - i
  {
    if i == |s| then ""
    else if s[i] != '\\' then [s[i]] + Unescaped(s, i + 1)
    else if i + 1 == |s| then ""
    else if s[i + 1] == 'x' || s[i + 1] == 'X' then
      var n := HexCount(s, i + 1, 0);
      HexText(s, i + 1, n) + Unescaped(s, i + 2 + n)
    else Simple(s[i + 1]) + Unescaped(s, i + 2)
  }

  /** `parseHexString`: the character and the number of digits taken. */
  method ParseHex(s: string, at: nat) returns (text: string, n: nat)
    requires at < |s|
    ensures n == HexCount(s, at, 0) && text == HexText(s, at, n)
  {
    var hex := 0;
    n := 0;
    while n < 4 && at + n + 1 < |s| && HexDigit(s[at + n + 1]) >= 0
      invariant n <= 4 && at + n < |s| && HexCount(s, at, n) == HexCount(s, at, 0) && hex == HexValue(s, at, n)
    {
      hex := hex * 16 + HexDigit(s[at + n + 1]);
      n := n + 1;
    }
    text := if n == 0 then "" else if hex > 127 then [REPLACEMENT] else [hex as char];
  }

  /** One step of the loop of `unEscape`: the text added, and the characters taken. */
  function Unit(s: string, i: nat): (r: (string, nat))
    requires i < |s|
    ensures i + r.1 <= |s| && r.1 > 0
  {
    if s[i] != '\\' then ([s[i]], 1)
    else if i + 1 == |s| then ("", 1)
    else if s[i + 1] == 'x' || s[i + 1] == 'X' then
      var n := HexCount(s, i + 1, 0);
      (HexText(s, i + 1, n), 2 + n)
    else (Simple(s[i + 1]), 2)
  }

  lemma {:induction false} UnitStep(s: string, i: nat)
    requires i < |s|
    ensures var u := Unit(s, i); Unescaped(s, i) == u.0 + Unescaped(s, i + u.1)
  {
    hide HexText, HexCount, Simple;
    if s[i] == '\\' && i + 1 == |s| { UnescapedEnd(s); assert "" + "" == ""; }
  }

  method UnEscapeStep(s: string, i: nat) returns (text: string, n: nat)
    requires i < |s|
    ensures (text, n) == Unit(s, i)
  {
    if s[i] != '\\' {
      return [s[i]], 1;
    }
    if i + 1 == |s| {
      return "", 1;
    }
    if s[i + 1] == 'x' || s[i + 1] == 'X' {
      text, n := ParseHex(s, i + 1);
      return text, 2 + n;
    }
    return Simple(s[i + 1]), 2;
  }

  method UnEscape(s: string) returns (rv: string)
    ensures rv == Unescaped(s, 0)
  {
    UnescapedEnd(s);
    hide Unescaped, Unit;
    rv := "";
    var i := 0;
    assert rv + Unescaped(s, i) == Unescaped(s, 0);
    while i < |s|
      invariant i <= |s| && rv + Unescaped(s, i) == Unescaped(s, 0)
    {
      var text, n := UnEscapeStep(s, i);
      UnitStep(s, i);
      assert rv + (text + Unescaped(s, i + n)) == (rv + text) + Unescaped(s, i + n);
      rv := rv + text;
      i := i + n;
    }
  }

  lemma {:induction false} UnescapedEnd(s: string)
    ensures Unescaped(s, |s|) == ""
  {
  }

  /** An escape pair names its character; any other character stands for itself. */
  lemma {:induction false} EscPair(c: char)
    ensures var e := Esc(c);
      if |e| == 1 then e == [c] && c != '\\' else e[0] == '\\' && e[1] != 'x' && e[1] != 'X' && Simple(e[1]) == [c]
  {
  }

  /** One escaped character. */
  lemma {:induction false} UnescapeOne(t: string, at: nat, c: char)
    requires at + |Esc(c)| <= |t| && t[at..at + |Esc(c)|] == Esc(c)
    ensures Unescaped(t, at) == [c] + Unescaped(t, at + |Esc(c)|)
  {
    hide Esc, Simple, Unescaped;
    EscPair(c);
    var e := Esc(c);
    assert t[at] == t[at..at + |e|][0] == e[0];
    if |e| == 2 { assert t[at + 1] == t[at..at + |e|][1] == e[1]; }
    assert Unit(t, at) == ([c], |e|);
    UnitStep(t, at);
  }

  lemma {:induction false} UnescapeMore(p: string, s: string, i: nat)
    requires i < |s| && Unescaped(p + Esc(s[i]) + Escaped(s, i + 1), |p + Esc(s[i])|) == s[i + 1..]
    ensures Unescaped(p + Escaped(s, i), |p|) == s[i..]
  {
    hide Unescaped, Esc;
    var e, t := Esc(s[i]), p + Escaped(s, i);
    assert t == (p + e) + Escaped(s, i + 1) && t[|p|..|p| + |e|] == e;
    UnescapeOne(t, |p|, s[i]);
    assert s[i..] == [s[i]] + s[i + 1..];
  }

  /** Unescaping undoes escaping, wherever the escaped text stands. */
  lemma {:induction false} UnescapeEscape(p: string, s: string, i: nat)
    requires i <= |s|
    ensures Unescaped(p + Escaped(s, i), |p|) == s[i..]
    decreases |s| - i
  {
    if i < |s| {
      UnescapeEscape(p + Esc(s[i]), s, i + 1);
      UnescapeMore(p, s, i);
    }
  }

  /** `unEscape(escape(s)) == s`. */
  method EscapeRoundTrip(s: string) returns (r: string)
    ensures r == s
  {
    var e := Escape(s);
    r := UnEscape(e);
    UnescapeEscape("", s, 0);
    assert "" + e == e && s[0..] == s;
  }

  // ---------------------------------------------------------------- what escapes stand for

  const LOWER := "0123456789abcdef"
  const UPPER := "0123456789ABCDEF"

  /** `t` writes the digits `ds`, in either alphabet. */
  ghost predicate Digits(t: string, ds: seq<nat>) {
    |t| == |ds| && forall i :: 0 <= i < |ds| ==> ds[i] < 16 && (t[i] == LOWER[ds[i]] || t[i] == UPPER[ds[i]])
  }

  ghost function Numeral(ds: seq<nat>): nat { if ds == [] then 0 else 16 * Numeral(ds[..|ds| - 1]) + ds[|ds| - 1] }

  lemma {:induction false} DigitIs(c: char, d: nat)
    requires d < 16 && (c == LOWER[d] || c == UPPER[d])
    ensures HexDigit(c) == d
  {
    assert d == 0 || d == 1 || d == 2 || d == 3 || d == 4 || d == 5 || d == 6 || d == 7 || d == 8 || d == 9
      || d == 10 || d == 11 || d == 12 || d == 13 || d == 14 || d == 15;
  }

  lemma {:induction false} NoDigit(c: char)
    requires c !in LOWER && c !in UPPER
    ensures HexDigit(c) < 0
  {
  }

  lemma {:induction false} HexRun(s: string, at: nat, j: nat, n: nat)
    requires j <= n <= 4 && at + n < |s| && forall k :: at < k <= at + n ==> HexDigit(s[k]) >= 0
    requires n == 4 || at + n + 1 == |s| || HexDigit(s[at + n + 1]) < 0
    ensures HexCount(s, at, j) == n
    decreases n - j
  {
    if j < n { HexRun(s, at, j + 1, n); }
  }

  lemma {:induction false} HexReads(s: string, at: nat, ds: seq<nat>)
    requires at + |ds| < |s| && Digits(s[at + 1..at + 1 + |ds|], ds)
    ensures HexValue(s, at, |ds|) == Numeral(ds)
  {
    hide HexDigit;
    if ds != [] {
      var n := |ds|;
      assert s[at + n] == s[at + 1..at + 1 + n][n - 1];
      DigitIs(s[at + n], ds[n - 1]);
      assert s[at + 1..at + n] == s[at + 1..at + 1 + n][..n - 1];
      HexReads(s, at, ds[..n - 1]);
    }
  }

  lemma {:induction false} HexShift(a: string, b: string, at: nat, j: nat)
    requires j <= 4 && at < |b|
    ensures HexCount(a + b, |a| + at, j) == HexCount(b, at, j)
    decreases 4 - j
  {
    if j < 4 && at + j + 1 < |b| {
      assert (a + b)[|a| + at + j + 1] == b[at + j + 1];
      HexShift(a, b, at, j + 1);
    }
  }

  lemma {:induction false} ValueShift(a: string, b: string, at: nat, n: nat)
    requires at + n < |b|
    ensures HexValue(a + b, |a| + at, n) == HexValue(b, at, n)
  {
    if n > 0 {
      assert (a + b)[|a| + at + n] == b[at + n];
      ValueShift(a, b, at, n - 1);
    }
  }

  /** What comes before does not matter. */
  lemma {:induction false} UnescapedShift(a: string, b: string, i: nat)
    requires i <= |b|
    ensures Unescaped(a + b, |a| + i) == Unescaped(b, i)
    decreases |b| - i
  {
    hide Unescaped, Unit;
    if i < |b| {
      UnitShift(a, b, i);
      UnitStep(a + b, |a| + i);
      UnitStep(b, i);
      UnescapedShift(a, b, i + Unit(b, i).1);
    } else {
      UnescapedEnd(a + b);
      UnescapedEnd(b);
    }
  }

  lemma {:induction false} UnitShift(a: string, b: string, i: nat)
    requires i < |b|
    ensures Unit(a + b, |a| + i) == Unit(b, i)
  {
    assert (a + b)[|a| + i] == b[i];
    if i + 1 < |b| {
      assert (a + b)[|a| + i + 1] == b[i + 1];
      HexShift(a, b, i + 1, 0);
      ValueShift(a, b, i + 1, HexCount(b, i + 1, 0));
    }
  }

  /** `\x` or `\X` and one to four digits, no further digit following if fewer than four: the character of that
      number, or the replacement character above 127. */
  lemma {:induction false} UnescapeHex(x: char, t: string, ds: seq<nat>, rest: string)
    requires (x == 'x' || x == 'X') && 1 <= |ds| <= 4 && Digits(t, ds)
    requires |ds| == 4 || rest == "" || (rest[0] !in LOWER && rest[0] !in UPPER)
    ensures Unescaped(['\\', x] + t + rest, 0) == [if Numeral(ds) > 127 then REPLACEMENT else Numeral(ds) as char] + Unescaped(rest, 0)
  {
    var a, n := ['\\', x] + t, |ds|;
    var s := a + rest;
    forall k | 1 < k <= 1 + n
      ensures HexDigit(s[k]) >= 0
    {
      DigitIs(t[k - 2], ds[k - 2]);
    }
    if n < 4 && rest != "" { NoDigit(rest[0]); }
    HexRun(s, 1, 0, n);
    assert s[2..2 + n] == t;
    HexReads(s, 1, ds);
    hide Unescaped, HexDigit;
    UnitStep(s, 0);
    UnescapedShift(a, rest, 0);
  }

  /** The other escapes; one that is none of these keeps its backslash, and a backslash at the end is dropped. */
  lemma {:induction false} UnescapePair(c: char, rest: string)
    requires c != 'x' && c != 'X'
    ensures var plain := Unescaped(rest, 0);
      Unescaped(['\\', c] + rest, 0) == match c
        case 'b' => "\U{8}" + plain case 't' => "\t" + plain case 'n' => "\n" + plain case 'f' => "\U{C}" + plain case 'r' => "\r" + plain
        case '\"' => "\"" + plain case '\'' => "'" + plain case '\\' => "\\" + plain case _ => ['\\', c] + plain
    ensures Unescaped("\\", 0) == ""
  {
    hide Unescaped;
    var a := ['\\', c];
    UnitStep(a + rest, 0);
    UnescapedShift(a, rest, 0);
    UnitStep("\\", 0);
    UnescapedEnd("\\");
  }

  /** No digit follows: the `x` and its backslash are dropped.  Any other character stands for itself. */
  lemma {:induction false} UnescapeRest(x: char, c: char, rest: string)
    requires (x == 'x' || x == 'X') && (rest == "" || (rest[0] !in LOWER && rest[0] !in UPPER)) && c != '\\'
    ensures Unescaped(['\\', x] + rest, 0) == Unescaped(rest, 0) && Unescaped([c] + rest, 0) == [c] + Unescaped(rest, 0)
  {
    hide Unescaped;
    var a := ['\\', x];
    if rest != "" { NoDigit(rest[0]); assert (a + rest)[2] == rest[0]; }
    HexRun(a + rest, 1, 0, 0);
    UnitStep(a + rest, 0);
    UnescapedShift(a, rest, 0);
    UnitStep([c] + rest, 0);
    UnescapedShift([c], rest, 0);
  }

  /** What `escape` prints: seven characters get a letter after a backslash, the others stay. */
  lemma {:induction false} EscapeFirst(c: char, rest: string)
    ensures Escaped([c] + rest, 0) == (match c
        case '\U{8}' => "\\b" case '\t' => "\\t" case '\n' => "\\n" case '\U{C}' => "\\f" case '\r' => "\\r"
        case '\"' => "\\\"" case '\\' => "\\\\" case _ => [c]) + Escaped(rest, 0)
  {
    EscapedShift([c], rest, 0);
  }

  lemma {:induction false} EscapedShift(a: string, b: string, i: nat)
    requires i <= |b|
    ensures Escaped(a + b, |a| + i) == Escaped(b, i)
    decreases |b| - i
  {
    if i < |b| { EscapedShift(a, b, i + 1); }
  }

  // ---------------------------------------------------------------- paths and their text

  datatype Value = Null | Str(text: string)
  datatype Prop = Prop(name: string, value: Value)

  /** The port is kept as text. */
  datatype Url = Url(protocol: string, host: string, port: string)
  datatype Path = Path(url: Url, nameSpace: string, className: string, keys: seq<Prop>)

  const LOCAL := Url("HTTP", "localhost", "5988")

  function ValueText(v: Value): string { if v.Null? then "null" else Escaped(v.text, 0) }

  function KeyText(k: Prop): string { k.name + "=\"" + ValueText(k.value) + "\"" }

  /** The keys from `i` on, separated by commas. */
  function KeysText(keys: seq<Prop>, i: nat): string
    requires i <= |keys|
    decreases |keys| - i
  {
    if i == |keys| then "" else (if i == 0 then "." else ",") + KeyText(keys[i]) + KeysText(keys, i + 1)
  }

  lemma {:induction false} KeysTextStep(rv: string, keys: seq<Prop>, i: nat)
    requires i < |keys|
    ensures rv + KeysText(keys, i) == rv + (if i > 0 then "," else ".") + KeyText(keys[i]) + KeysText(keys, i + 1)
  {
    hide KeyText;
    var sep, key, rest := if i == 0 then "." else ",", KeyText(keys[i]), KeysText(keys, i + 1);
    assert rv + (sep + key + rest) == rv + sep + key + rest;
  }

  /** `modelPath`. */
  method ModelPath(p: Path) returns (rv: string)
    ensures rv == p.className + KeysText(p.keys, 0)
  {
    rv := p.className;
    for i := 0 to |p.keys|
      invariant rv + KeysText(p.keys, i) == p.className + KeysText(p.keys, 0)
    {
      KeysTextStep(rv, p.keys, i);
      var key := KeyOf(p.keys[i]);
      rv := rv + (if i > 0 then "," else ".");
      rv := rv + key;
    }
    assert rv + "" == rv;
  }

  method KeyOf(k: Prop) returns (key: string)
    ensures key == KeyText(k)
  {
    var text := "null";
    if !k.value.Null? {
      text := Escape(k.value.text);
    }
    key := k.name + "=\"" + text + "\"";
  }

  /** `toString` of a path on the local host. */
  function LocalText(p: Path): string { "/" + p.nameSpace + ":" + p.className + KeysText(p.keys, 0) }

  function AuthorityText(u: Url): string {
    (if u.protocol == "" then "HTTP" else u.protocol) + "://" + (if u.host == "" then "localhost" else u.host)
    + (if u.port == "5988" then "" else ":" + u.port)
  }

  /** `toString`: the protocol and host come first unless the host is the local one. */
  method ToString(p: Path, local: bool) returns (rv: string)
    ensures rv == (if local then "" else AuthorityText(p.url)) + LocalText(p)
  {
    rv := "";
    if !local {
      rv := AuthorityText(p.url);
    }
    var model := ModelPath(p);
    ghost var start := rv;
    rv := rv + "/";
    rv := rv + p.nameSpace;
    rv := rv + ":";
    rv := rv + model;
    assert "/" + p.nameSpace + ":" + model == LocalText(p);
    assert rv == start + ("/" + p.nameSpace + ":" + model);
  }

  // ---------------------------------------------------------------- the parser

  datatype Error = INVALID_PARAMETER | NOT_FOUND
  datatype Keys = Found(keys: seq<Prop>) | BadKey

  function CharAt(v: string, i: nat): char { if i < |v| then v[i] else '\0' }
  function Sub(v: string, a: nat, b: int): string { if a <= b <= |v| then v[a..b] else "" }

  /** The value text that ends at `end` for an equals sign before `eq`: without its quotes, if it has them. */
  function ValueOf(v: string, eq: nat, end: nat): string {
    if CharAt(v, eq) != '\"' then Sub(v, eq, end) else Sub(v, eq + 1, end - 1)
  }

  /** The scan for keys, from a state of its loop: position, inside quotes, just after the last equals sign (0 if
      none), start of the key, keys so far. */
  function Scan(v: string, i: nat, inquote: bool, eq: nat, start: nat, acc: seq<Prop>): Keys
    decreases |v| - i
  {
    if i >= |v| then Found(acc)
    else if i + 1 < |v| && v[i] == '\\' then Scan(v, i + 2, inquote, eq, start, acc)
    else
      var q := if v[i] == '\"' then !inquote else inquote;
      if q then Scan(v, i + 1, q, eq, start, acc)
      else
        var e := if v[i] == '=' then i + 1 else eq;
        if v[i] == ',' || i + 1 == |v| then
          if e == 0 then BadKey
          else
            var end := if i + 1 == |v| then i + 1 else i;
            Scan(v, end + 2, q, 0, end + 1, acc + [Prop(Sub(v, start, e - 1), Str(Unescaped(ValueOf(v, e, end), 0)))])
        else Scan(v, i + 1, q, e, start, acc)
  }

  /** The key loop of `parse`. */
  method ParseKeys(values: string) returns (r: Keys)
    ensures r == Scan(values, 0, false, 0, 0, [])
  {
    var inquote, equalspos, i, keystart := false, 0, 0, 0;
    var tmpkeys: seq<Prop> := [];
    while i < |values|
      invariant Scan(values, i, inquote, equalspos, keystart, tmpkeys) == Scan(values, 0, false, 0, 0, [])
      decreases |values| - i
    {
      var ch := values[i];
      if i < |values| - 1 && ch == '\\' {
        i := i + 2;
        continue;
      }
      if ch == '\"' {
        inquote := !inquote;
      }
      if inquote {
        i := i + 1;
        continue;
      }
      if ch == '=' {
        equalspos := i + 1;
      }
      if ch == ',' || i + 1 == |values| {
        if i + 1 == |values| {
          i := i + 1;
        }
        if equalspos == 0 {
          return BadKey;
        }
        var keyvalue := UnEscape(ValueOf(values, equalspos, i));
        tmpkeys := tmpkeys + [Prop(Sub(values, keystart, equalspos - 1), Str(keyvalue))];
        i := i + 1;
        equalspos := 0;
        keystart := i;
      }
      i := i + 1;
    }
    return Found(tmpkeys);
  }

  predicate Space(c: char) { c == ' ' || c == '\t' || c == '\n' || c == '\r' || c == FORMFEED || c == '\U{B}' }

  function TrimLeft(s: string): string { if s != "" && Space(s[0]) then TrimLeft(s[1..]) else s }
  function TrimRight(s: string): string { if s != "" && Space(s[|s| - 1]) then TrimRight(s[..|s| - 1]) else s }
  function Trim(s: string): string { TrimRight(TrimLeft(s)) }

  /** The first `c` from `i` on, or the length. */
  function IndexOf(s: string, c: char, i: nat): (r: nat)
    requires i <= |s|
    ensures i <= r <= |s| && (forall k :: i <= k < r ==> s[k] != c) && (r < |s| ==> s[r] == c)
    decreases |s| - i
  {
    if i == |s| || s[i] == c then i else IndexOf(s, c, i + 1)
  }

  predicate SchemeAt(s: string, i: nat) { i + 3 <= |s| && s[i] == ':' && s[i + 1] == '/' && s[i + 2] == '/' }

  /** The first `://` from `i` on, or the length. */
  function IndexOfScheme(s: string, i: nat): (r: nat)
    requires i <= |s|
    ensures i <= r <= |s| && (forall k :: i <= k < r ==> !SchemeAt(s, k)) && (r < |s| ==> SchemeAt(s, r))
    decreases |s| - i
  {
    if i == |s| || SchemeAt(s, i) then i else IndexOfScheme(s, i + 1)
  }

  /** `setNameSpace`: no blanks around it and no leading slashes. */
  function StripSlashes(s: string): string { if s != "" && s[0] == '/' then StripSlashes(s[1..]) else s }

  datatype Result = Parsed(path: Path) | NoPath | Failed(error: Error)

  /** The part of `parse` after protocol and host: `[namespace:]class.keys`. */
  function ParseRest(url: Url, text: string): Result {
    var colon := IndexOf(text, ':', 0);
    var ns := if colon < |text| then text[..colon] else "root";
    var rest := if colon < |text| then text[colon + 1..] else text;
    var dot := IndexOf(rest, '.', 0);
    if dot == |rest| || dot + 1 == |rest| then Failed(INVALID_PARAMETER)
    else match Scan(rest[dot + 1..], 0, false, 0, 0, [])
      case Found(keys) => Parsed(Path(url, StripSlashes(Trim(ns)), rest[..dot], keys))
      case BadKey => Failed(NOT_FOUND)
  }

  /** `parse`. */
  function ParseText(arg: string): Result {
    var text := Trim(arg);
    if text == "" then NoPath
    else
      var scheme := IndexOfScheme(text, 0);
      if scheme < |text| then
        var after := text[scheme + 3..];
        var slash := IndexOf(after, '/', 0);
        if slash == |after| then Failed(INVALID_PARAMETER)
        else
          var host := after[..slash];
          var colon := IndexOf(host, ':', 0);
          var url := if colon < |host| then Url(text[..scheme], host[..colon], host[colon + 1..]) else Url(text[..scheme], host, LOCAL.port);
          ParseRest(url, after[slash + 1..])
      else ParseRest(LOCAL, if text[0] == '/' then text[1..] else text)
  }

  method ParseTail(url: Url, text: string) returns (r: Result)
    ensures r == ParseRest(url, text)
  {
    hide Scan, Trim, StripSlashes, IndexOf;
    var name, nameSpace := text, "root";
    var ndx := IndexOf(name, ':', 0);
    if ndx < |name| {
      nameSpace := name[..ndx];
      name := name[ndx + 1..];
    }
    ndx := IndexOf(name, '.', 0);
    if ndx == |name| {
      return Failed(INVALID_PARAMETER);
    }
    var className := name[..ndx];
    name := name[ndx + 1..];
    if |name| == 0 {
      return Failed(INVALID_PARAMETER);
    }
    var keys := ParseKeys(name);
    match keys
    case BadKey => return Failed(NOT_FOUND);
    case Found(ks) => return Parsed(Path(url, StripSlashes(Trim(nameSpace)), className, ks));
  }

  method Parse(arg: string) returns (r: Result)
    ensures r == ParseText(arg)
  {
    hide ParseRest, Trim, IndexOf, IndexOfScheme;
    var name := Trim(arg);
    if name == "" {
      return NoPath;
    }
    var url := LOCAL;
    var ndx := IndexOfScheme(name, 0);
    if ndx < |name| {
      var protocol := name[..ndx];
      name := name[ndx + 3..];
      ndx := IndexOf(name, '/', 0);
      if ndx == |name| {
        return Failed(INVALID_PARAMETER);
      }
      var host := name[..ndx];
      name := name[ndx + 1..];
      ndx := IndexOf(host, ':', 0);
      url := if ndx < |host| then Url(protocol, host[..ndx], host[ndx + 1..]) else Url(protocol, host, LOCAL.port);
    } else if name[0] == '/' {
      name := name[1..];
    }
    r := ParseTail(url, name);
  }

  // ---------------------------------------------------------------- scanning printed keys

  predicate Plain(c: char) { c != '\\' && c != '\"' && c != '=' && c != ',' && c != '.' && c != ':' && c != '/' }

  /** A name free of delimiters. */
  ghost predicate IsName(s: string) { s != "" && forall i :: 0 <= i < |s| ==> Plain(s[i]) }

  lemma {:induction false} ScanName(v: string, i: nat, end: nat, start: nat, acc: seq<Prop>)
    requires i <= end < |v| && forall k :: i <= k < end ==> Plain(v[k])
    ensures Scan(v, i, false, 0, start, acc) == Scan(v, end, false, 0, start, acc)
    decreases end - i
  {
    if i < end { ScanName(v, i + 1, end, start, acc); }
  }

  /** Inside quotes the scan passes over an escaped text without meeting its end. */
  lemma {:induction false} ScanQuoted(v: string, at: nat, s: string, i: nat, eq: nat, start: nat, acc: seq<Prop>)
    requires i <= |s| && at + |Escaped(s, i)| < |v| && v[at..at + |Escaped(s, i)|] == Escaped(s, i)
    ensures Scan(v, at, true, eq, start, acc) == Scan(v, at + |Escaped(s, i)|, true, eq, start, acc)
    decreases |s| - i
  {
    if i < |s| {
      var e, rest := Esc(s[i]), Escaped(s, i + 1);
      var w := v[at..at + |Escaped(s, i)|];
      assert w == e + rest;
      assert v[at + |e|..at + |e| + |rest|] == w[|e|..] == rest;
      assert v[at] == w[0] == e[0];
      if |e| == 2 { assert v[at + 1] == w[1]; }
      assert Scan(v, at, true, eq, start, acc) == Scan(v, at + |e|, true, eq, start, acc);
      ScanQuoted(v, at + |e|, s, i + 1, eq, start, acc);
    }
  }

  /** `v` has the text of key `k` at `start`: the name up to the equals sign before `eq`, and the value's quotes
      there and at `q`. */
  ghost predicate KeyAt(v: string, start: nat, k: Prop, eq: nat, q: nat) {
    && IsName(k.name) && k.value.Str? && eq == start + |k.name| + 1 && q == eq + 1 + |Escaped(k.value.text, 0)| && q < |v|
    && v[start..eq - 1] == k.name && v[eq - 1] == '=' && v[eq] == '\"' && v[eq + 1..q] == Escaped(k.value.text, 0) && v[q] == '\"'
  }

  lemma {:induction false} KeyTextAt(pre: string, k: Prop, post: string)
    requires IsName(k.name) && k.value.Str?
    ensures KeyAt(pre + KeyText(k) + post, |pre|, k, |pre| + |k.name| + 1, |pre| + |KeyText(k)| - 1)
  {
  }

  /** Up to the closing quote of the key. */
  lemma {:induction false} ScanToQuote(v: string, start: nat, i: nat, k: Prop, eq: nat, q: nat, acc: seq<Prop>)
    requires KeyAt(v, start, k, eq, q) && start <= i <= start + 1
    ensures Scan(v, i, false, 0, start, acc) == Scan(v, q, true, eq, start, acc)
  {
    assert forall j :: start <= j < eq - 1 ==> v[j] == v[start..eq - 1][j - start];
    ScanName(v, i, eq - 1, start, acc);
    assert Scan(v, eq - 1, false, 0, start, acc) == Scan(v, eq, false, eq, start, acc);
    assert Scan(v, eq, false, eq, start, acc) == Scan(v, eq + 1, true, eq, start, acc);
    ScanQuoted(v, eq + 1, k.value.text, 0, eq, start, acc);
  }

  lemma {:induction false} KeyRead(v: string, start: nat, k: Prop, eq: nat, q: nat)
    requires KeyAt(v, start, k, eq, q)
    ensures Prop(Sub(v, start, eq - 1), Str(Unescaped(ValueOf(v, eq, q + 1), 0))) == k
  {
    var e := Escaped(k.value.text, 0);
    UnescapeEscape("", k.value.text, 0);
    assert "" + e == e && k.value.text[0..] == k.value.text;
  }

  /** One printed key, up to the start of the next. */
  lemma {:induction false} ScanKey(v: string, start: nat, i: nat, k: Prop, eq: nat, q: nat, acc: seq<Prop>)
    requires KeyAt(v, start, k, eq, q) && start <= i <= start + 1 && (q + 1 == |v| || (v[q + 1] == ',' && q + 2 < |v|))
    ensures Scan(v, i, false, 0, start, acc) == if q + 1 == |v| then Found(acc + [k]) else Scan(v, q + 3, false, 0, q + 2, acc + [k])
  {
    hide Unescaped, Escaped, Sub, ValueOf;
    ScanToQuote(v, start, i, k, eq, q, acc);
    KeyRead(v, start, k, eq, q);
    if q + 1 < |v| {
      assert Scan(v, q, true, eq, start, acc) == Scan(v, q + 1, false, eq, start, acc);
    }
  }

  /** A character that an unquoted value may hold. */
  predicate Unquoted(c: char) { c != '\\' && c != '\"' && c != '=' && c != ',' }

  lemma {:induction false} UnescapedPlain(t: string, i: nat)
    requires i <= |t| && forall k :: 0 <= k < |t| ==> Unquoted(t[k])
    ensures Unescaped(t, i) == t[i..]
    decreases |t| - i
  {
    if i < |t| {
      assert Unquoted(t[i]);
      UnescapedPlain(t, i + 1);
      assert t[i..] == [t[i]] + t[i + 1..];
    }
  }

  /** `v` has key `k` at `start` with its value, unquoted, from `eq` to `end`. */
  ghost predicate BareAt(v: string, start: nat, k: Prop, eq: nat, end: nat) {
    && IsName(k.name) && k.value.Str? && eq == start + |k.name| + 1 && end == eq + |k.value.text| <= |v|
    && v[start..eq - 1] == k.name && v[eq - 1] == '=' && v[eq..end] == k.value.text && forall i :: eq <= i < end ==> Unquoted(v[i])
  }

  lemma {:induction false} ScanBare(v: string, i: nat, end: nat, eq: nat, start: nat, acc: seq<Prop>)
    requires i <= end < |v| && forall k :: i <= k < end ==> Unquoted(v[k])
    ensures Scan(v, i, false, eq, start, acc) == Scan(v, end, false, eq, start, acc)
    decreases end - i
  {
    if i < end {
      assert Unquoted(v[i]);
      ScanBare(v, i + 1, end, eq, start, acc);
    }
  }

  lemma {:induction false} BareRead(v: string, start: nat, k: Prop, eq: nat, end: nat)
    requires BareAt(v, start, k, eq, end) && (end == |v| || v[end] == ',')
    ensures Prop(Sub(v, start, eq - 1), Str(Unescaped(ValueOf(v, eq, end), 0))) == k
  {
    var t := k.value.text;
    forall i | 0 <= i < |t|
      ensures Unquoted(t[i])
    {
      assert t[i] == v[eq..end][i] == v[eq + i];
    }
    UnescapedPlain(t, 0);
    assert t[0..] == t;
  }

  // Steps of the scan outside quotes.

  lemma {:induction false} ScanEquals(v: string, i: nat, start: nat, acc: seq<Prop>)
    requires i + 1 < |v| && v[i] == '='
    ensures Scan(v, i, false, 0, start, acc) == Scan(v, i + 1, false, i + 1, start, acc)
  {
  }

  lemma {:induction false} ScanComma(v: string, i: nat, eq: nat, start: nat, acc: seq<Prop>)
    requires i + 1 < |v| && v[i] == ',' && eq > 0
    ensures Scan(v, i, false, eq, start, acc)
      == Scan(v, i + 2, false, 0, i + 1, acc + [Prop(Sub(v, start, eq - 1), Str(Unescaped(ValueOf(v, eq, i), 0)))])
  {
  }

  lemma {:induction false} ScanEnd(v: string, eq: nat, start: nat, acc: seq<Prop>)
    requires 0 < eq < |v| && Unquoted(v[|v| - 1])
    ensures Scan(v, |v| - 1, false, eq, start, acc) == Found(acc + [Prop(Sub(v, start, eq - 1), Str(Unescaped(ValueOf(v, eq, |v|), 0)))])
  {
    hide Unescaped, Sub, ValueOf;
  }

  lemma {:induction false} ScanNothing(v: string, start: nat, acc: seq<Prop>)
    requires v != "" && v[|v| - 1] == '='
    ensures Scan(v, |v| - 1, false, 0, start, acc) == Found(acc + [Prop(Sub(v, start, |v| - 1), Str(Unescaped(ValueOf(v, |v|, |v|), 0)))])
  {
    hide Unescaped, Sub, ValueOf;
  }

  /** One key with an unquoted value, up to the start of the next. */
  lemma {:induction false} ScanBareKey(v: string, start: nat, i: nat, k: Prop, eq: nat, end: nat, acc: seq<Prop>)
    requires BareAt(v, start, k, eq, end) && start <= i <= start + 1 && (end == |v| || (v[end] == ',' && end + 1 < |v|))
    ensures Scan(v, i, false, 0, start, acc) == if end == |v| then Found(acc + [k]) else Scan(v, end + 2, false, 0, end + 1, acc + [k])
  {
    BareRead(v, start, k, eq, end);
    hide Scan, Unescaped, Sub, ValueOf;
    assert forall j :: start <= j < eq - 1 ==> v[j] == v[start..eq - 1][j - start];
    ScanName(v, i, eq - 1, start, acc);
    if eq == |v| {
      ScanNothing(v, start, acc);
    } else {
      ScanEquals(v, eq - 1, start, acc);
      if end == |v| {
        ScanBare(v, eq, end - 1, eq, start, acc);
        ScanEnd(v, eq, start, acc);
      } else {
        ScanBare(v, eq, end, eq, start, acc);
        ScanComma(v, end, eq, start, acc);
      }
    }
  }

  // ---------------------------------------------------------------- keys as they may be written

  /** The text of a key, its value without quotes if `bare`. */
  function Spell(k: Prop, bare: bool): string { if bare && k.value.Str? then k.name + "=" + k.value.text else KeyText(k) }

  ghost predicate Spellable(k: Prop, bare: bool) {
    IsName(k.name) && k.value.Str? && (bare ==> forall i :: 0 <= i < |k.value.text| ==> Unquoted(k.value.text[i]))
  }

  /** The keys from `j` on, separated by commas. */
  function SpellKeys(keys: seq<Prop>, bare: seq<bool>, j: nat): string
    requires j <= |keys| == |bare|
    decreases |keys| - j
  {
    if j == |keys| then "" else Spell(keys[j], bare[j]) + (if j + 1 == |keys| then "" else "," + SpellKeys(keys, bare, j + 1))
  }

  ghost predicate AllSpellable(keys: seq<Prop>, bare: seq<bool>) {
    |keys| == |bare| && forall i :: 0 <= i < |keys| ==> Spellable(keys[i], bare[i])
  }

  /** One key, written either way, up to the start of the next. */
  lemma {:induction false} ScanSpelt(pre: string, k: Prop, bare: bool, post: string, i: nat, acc: seq<Prop>)
    requires Spellable(k, bare) && |pre| <= i <= |pre| + 1 && (post == "" || (post[0] == ',' && |post| > 1))
    ensures var v, end := pre + Spell(k, bare) + post, |pre| + |Spell(k, bare)|;
      Scan(v, i, false, 0, |pre|, acc) == if post == "" then Found(acc + [k]) else Scan(v, end + 2, false, 0, end + 1, acc + [k])
  {
    hide Scan, KeyText, Spell, BareAt, KeyAt;
    var v, eq := pre + Spell(k, bare) + post, |pre| + |k.name| + 1;
    if bare {
      BareTextAt(pre, k, post);
      ScanBareKey(v, |pre|, i, k, eq, |pre| + |Spell(k, true)|, acc);
    } else {
      Quotes(k);
      KeyTextAt(pre, k, post);
      ScanKey(v, |pre|, i, k, eq, |pre| + |KeyText(k)| - 1, acc);
    }
  }

  lemma {:induction false} BareTextAt(pre: string, k: Prop, post: string)
    requires Spellable(k, true)
    ensures var v, end := pre + Spell(k, true) + post, |pre| + |Spell(k, true)|;
      BareAt(v, |pre|, k, |pre| + |k.name| + 1, end) && (end == |v| <==> post == "") && (post != "" ==> v[end] == post[0])
  {
  }

  /** Where the text of the keys from `j` on divides. */
  lemma {:induction false} SpeltMore(pre: string, keys: seq<Prop>, bare: seq<bool>, j: nat, tail: string)
    requires AllSpellable(keys, bare) && j < |keys|
    ensures j + 1 == |keys| ==> SpellKeys(keys, bare, j) == Spell(keys[j], bare[j])
    ensures j + 1 == |keys| ==> pre + (SpellKeys(keys, bare, j) + tail) == pre + Spell(keys[j], bare[j]) + tail
    ensures j + 1 < |keys| ==> SpellKeys(keys, bare, j) == Spell(keys[j], bare[j]) + "," + SpellKeys(keys, bare, j + 1)
    ensures j + 1 < |keys| ==> SpellKeys(keys, bare, j + 1) != ""
    ensures j + 1 < |keys| ==> pre + (SpellKeys(keys, bare, j) + tail) == pre + Spell(keys[j], bare[j]) + ("," + SpellKeys(keys, bare, j + 1) + tail)
    ensures j + 1 < |keys| ==> pre + (SpellKeys(keys, bare, j) + tail) == pre + Spell(keys[j], bare[j]) + "," + (SpellKeys(keys, bare, j + 1) + tail)
  {
    hide Spell, SpellKeys;
    SpeltStep(keys, bare, j);
    if j + 1 < |keys| {
      SpeltSome(keys, bare, j + 1);
      Divide(pre, Spell(keys[j], bare[j]), SpellKeys(keys, bare, j + 1), tail);
    }
  }

  lemma {:induction false} SpeltStep(keys: seq<Prop>, bare: seq<bool>, j: nat)
    requires j < |keys| == |bare|
    ensures j + 1 == |keys| ==> SpellKeys(keys, bare, j) == Spell(keys[j], bare[j])
    ensures j + 1 < |keys| ==> SpellKeys(keys, bare, j) == Spell(keys[j], bare[j]) + "," + SpellKeys(keys, bare, j + 1)
  {
    hide Spell;
  }

  lemma {:induction false} Divide(a: string, b: string, c: string, d: string)
    ensures a + (b + "," + c + d) == a + b + ("," + c + d) == a + b + "," + (c + d)
  {
  }

  lemma {:induction false} SpeltSome(keys: seq<Prop>, bare: seq<bool>, j: nat)
    requires AllSpellable(keys, bare) && j < |keys|
    ensures SpellKeys(keys, bare, j) != ""
  {
    assert Spellable(keys[j], bare[j]);
  }

  lemma {:induction false} OneMore(acc: seq<Prop>, keys: seq<Prop>, j: nat)
    requires j < |keys|
    ensures acc + keys[j..] == acc + [keys[j]] + keys[j + 1..] && (j + 1 == |keys| ==> acc + keys[j..] == acc + [keys[j]])
  {
    assert keys[j..] == [keys[j]] + keys[j + 1..];
  }

  /** What is left to scan of `v` once the keys read so far, `acc`, end at `end`. */
  ghost function Onwards(v: string, end: nat, acc: seq<Prop>): Keys { if end == |v| then Found(acc) else Scan(v, end + 2, false, 0, end + 1, acc) }

  /** All keys from `j` on, each with or without quotes, are read back; then comes `tail`, if any. */
  lemma {:induction false} ScanKeys(pre: string, keys: seq<Prop>, bare: seq<bool>, j: nat, i: nat, acc: seq<Prop>, tail: string)
    requires AllSpellable(keys, bare) && j < |keys| && |pre| <= i <= |pre| + 1 && (tail == "" || (tail[0] == ',' && |tail| > 1))
    ensures var v := pre + (SpellKeys(keys, bare, j) + tail);
      Scan(v, i, false, 0, |pre|, acc) == Onwards(v, |pre| + |SpellKeys(keys, bare, j)|, acc + keys[j..])
    decreases |keys| - j
  {
    hide Scan, Spell, SpellKeys;
    OneMore(acc, keys, j);
    SpeltMore(pre, keys, bare, j, tail);
    if j + 1 == |keys| {
      ScanSpelt(pre, keys[j], bare[j], tail, i, acc);
    } else {
      var pre' := pre + Spell(keys[j], bare[j]) + ",";
      ScanSpelt(pre, keys[j], bare[j], "," + SpellKeys(keys, bare, j + 1) + tail, i, acc);
      ScanKeys(pre', keys, bare, j + 1, |pre'| + 1, acc + [keys[j]], tail);
    }
  }

  /** The key loop of `parse` reads any keys, each with or without quotes. */
  method ReadKeys(keys: seq<Prop>, bare: seq<bool>) returns (r: Keys)
    requires AllSpellable(keys, bare) && keys != []
    ensures r == Found(keys)
  {
    r := ParseKeys(SpellKeys(keys, bare, 0));
    ScanWhole(keys, bare);
  }

  lemma {:induction false} ScanWhole(keys: seq<Prop>, bare: seq<bool>)
    requires AllSpellable(keys, bare) && keys != []
    ensures SpellKeys(keys, bare, 0) != "" && Scan(SpellKeys(keys, bare, 0), 0, false, 0, 0, []) == Found(keys)
  {
    SpeltSome(keys, bare, 0);
    hide Scan, SpellKeys;
    ScanKeys("", keys, bare, 0, 0, [], "");
    assert "" + (SpellKeys(keys, bare, 0) + "") == SpellKeys(keys, bare, 0) && [] + keys[0..] == keys;
  }

  /** A name without an equals sign, alone or after other keys, is refused; but a single character after a comma is
      skipped. */
  method RefuseKeys(keys: seq<Prop>, bare: seq<bool>, name: string) returns (r: Keys)
    requires AllSpellable(keys, bare) && IsName(name)
    ensures r == if keys != [] && |name| == 1 then Found(keys) else BadKey
  {
    r := ParseKeys(if keys == [] then name else SpellKeys(keys, bare, 0) + ("," + name));
    if keys == [] {
      NameLast("", name, 0, []);
      assert "" + name == name;
    } else {
      ScanThenName(keys, bare, name);
    }
  }

  lemma {:induction false} NameLast(pre: string, name: string, i: nat, acc: seq<Prop>)
    requires IsName(name) && |pre| <= i <= |pre| + 1
    ensures Scan(pre + name, i, false, 0, |pre|, acc) == if i == |pre| + |name| then Found(acc) else BadKey
  {
    var v := pre + name;
    if i < |v| {
      ScanName(v, i, |v| - 1, |pre|, acc);
      assert Plain(v[|v| - 1]);
    }
  }

  lemma {:induction false} ScanThenName(keys: seq<Prop>, bare: seq<bool>, name: string)
    requires AllSpellable(keys, bare) && keys != [] && IsName(name)
    ensures Scan(SpellKeys(keys, bare, 0) + ("," + name), 0, false, 0, 0, []) == if |name| == 1 then Found(keys) else BadKey
  {
    hide Scan, SpellKeys;
    var sp := SpellKeys(keys, bare, 0);
    var v := sp + ("," + name);
    ScanKeys("", keys, bare, 0, 0, [], "," + name);
    assert "" + v == v == (sp + ",") + name && [] + keys[0..] == keys;
    NameLast(sp + ",", name, |sp| + 2, keys);
  }

  ghost predicate Printable(keys: seq<Prop>) {
    forall i :: 0 <= i < |keys| ==> IsName(keys[i].name) && keys[i].value.Str?
  }

  /** Printed keys are all quoted. */
  lemma {:induction false} PrintedKeys(keys: seq<Prop>, j: nat)
    requires j < |keys|
    ensures KeysText(keys, j) == (if j == 0 then "." else ",") + SpellKeys(keys, seq(|keys|, _ => false), j)
    decreases |keys| - j
  {
    hide KeyText, KeysText, Spell, SpellKeys;
    var bare := seq(|keys|, _ => false);
    Quotes(keys[j]);
    TextStep(keys, j);
    SpeltStep(keys, bare, j);
    var sep, k := if j == 0 then "." else ",", KeyText(keys[j]);
    if j + 1 < |keys| {
      PrintedKeys(keys, j + 1);
      Regroup(sep, k, SpellKeys(keys, bare, j + 1));
    } else {
      NothingAfter(sep + k);
    }
  }

  lemma {:induction false} NothingAfter(a: string)
    ensures a + "" == a
  {
  }

  lemma {:induction false} Quotes(k: Prop)
    ensures Spell(k, false) == KeyText(k)
  {
  }

  lemma {:induction false} TextStep(keys: seq<Prop>, j: nat)
    requires j < |keys|
    ensures KeysText(keys, j) == (if j == 0 then "." else ",") + KeyText(keys[j]) + (if j + 1 == |keys| then "" else KeysText(keys, j + 1))
  {
    hide KeyText;
  }

  lemma {:induction false} Regroup(a: string, b: string, c: string)
    ensures a + b + ("," + c) == a + (b + "," + c)
  {
  }

  // ---------------------------------------------------------------- looking like a URL

  ghost predicate HasScheme(t: string) { exists i: nat :: SchemeAt(t, i) }

  lemma {:induction false} SchemeJoin(a: string, b: string)
    requires b == "" || b[0] != '/' || (|a| >= 2 && a[|a| - 1] != ':' && a[|a| - 2] != ':')
    ensures HasScheme(a + b) <==> HasScheme(a) || HasScheme(b)
  {
    if HasScheme(a + b) {
      var i: nat :| SchemeAt(a + b, i);
      if i >= |a| { assert SchemeAt(b, i - |a|); } else { assert SchemeAt(a, i); }
    }
    if HasScheme(a) { var i: nat :| SchemeAt(a, i); assert SchemeAt(a + b, i); }
    if HasScheme(b) { var i: nat :| SchemeAt(b, i); assert SchemeAt(a + b, i + |a|); }
  }

  /** Escaping neither makes nor breaks a `://`. */
  lemma {:induction false} EscapedScheme(s: string, i: nat)
    requires i <= |s|
    ensures HasScheme(Escaped(s, i)) <==> exists k: nat :: i <= k && SchemeAt(s, k)
    decreases |s| - i
  {
    if i == |s| {
      assert forall k: nat :: !SchemeAt("", k);
      return;
    }
    EscapedScheme(s, i + 1);
    var e, r := Esc(s[i]), Escaped(s, i + 1);
    EscapedSlashes(s, i + 1);
    if s[i] != ':' || !(r != "" && r[0] == '/') {
      SchemeStep(e, r);
      assert forall k: nat :: i <= k && SchemeAt(s, k) ==> i + 1 <= k;
    } else if SchemeAt(s, i) {
      assert SchemeAt(e + r, 0);
    } else {
      SchemeColon(r);
      assert forall k: nat :: i <= k && SchemeAt(s, k) ==> i + 1 <= k;
    }
  }

  /** Slashes are not escaped. */
  lemma {:induction false} EscapedSlashes(s: string, i: nat)
    requires i <= |s|
    ensures var r := Escaped(s, i);
      && (r != "" && r[0] == '/' <==> i < |s| && s[i] == '/')
      && (|r| >= 2 && r[0] == '/' && r[1] == '/' <==> i + 1 < |s| && s[i] == '/' && s[i + 1] == '/')
  {
  }

  lemma {:induction false} SchemeStep(e: string, r: string)
    requires 1 <= |e| <= 2 && (|e| == 2 ==> e[0] != ':' && e[1] != ':') && (e[0] == ':' ==> r == "" || r[0] != '/')
    ensures HasScheme(e + r) <==> HasScheme(r)
  {
    if HasScheme(e + r) {
      var i: nat :| SchemeAt(e + r, i);
      assert i >= |e|;
      assert SchemeAt(r, i - |e|);
    }
    if HasScheme(r) { var i: nat :| SchemeAt(r, i); assert SchemeAt(e + r, i + |e|); }
  }

  lemma {:induction false} SchemeColon(r: string)
    requires !(|r| >= 2 && r[0] == '/' && r[1] == '/')
    ensures HasScheme(":" + r) <==> HasScheme(r)
  {
    if HasScheme(":" + r) {
      var i: nat :| SchemeAt(":" + r, i);
      assert i >= 1;
      assert SchemeAt(r, i - 1);
    }
    if HasScheme(r) { var i: nat :| SchemeAt(r, i); assert SchemeAt(":" + r, i + 1); }
  }

  /** Some value from `j` on contains `://`. */
  ghost predicate UrlInside(keys: seq<Prop>, j: nat) { exists i: nat :: j <= i < |keys| && keys[i].value.Str? && HasScheme(keys[i].value.text) }

  lemma {:induction false} NoScheme(t: string)
    requires forall i :: 0 <= i < |t| ==> t[i] != ':'
    ensures !HasScheme(t)
  {
  }

  lemma {:induction false} KeyTextScheme(k: Prop)
    requires IsName(k.name) && k.value.Str?
    ensures HasScheme(KeyText(k)) <==> HasScheme(k.value.text)
  {
    var esc := Escaped(k.value.text, 0);
    EscapedScheme(k.value.text, 0);
    assert HasScheme(k.value.text) <==> exists i: nat :: 0 <= i && SchemeAt(k.value.text, i);
    var head := k.name + "=\"";
    NoScheme(head);
    SchemeJoin(head, esc);
    NoScheme("\"");
    SchemeJoin(head + esc, "\"");
    assert KeyText(k) == head + esc + "\"";
  }

  lemma {:induction false} KeysTextScheme(keys: seq<Prop>, j: nat)
    requires Printable(keys) && j <= |keys|
    ensures HasScheme(KeysText(keys, j)) <==> UrlInside(keys, j)
    decreases |keys| - j
  {
    if j == |keys| {
      NoScheme("");
      return;
    }
    KeysTextScheme(keys, j + 1);
    KeysTextJoin(keys, j);
    assert UrlInside(keys, j) <==> HasScheme(keys[j].value.text) || UrlInside(keys, j + 1);
  }

  lemma {:induction false} KeysTextJoin(keys: seq<Prop>, j: nat)
    requires Printable(keys) && j < |keys|
    ensures HasScheme(KeysText(keys, j)) <==> HasScheme(keys[j].value.text) || HasScheme(KeysText(keys, j + 1))
  {
    var sep, t, rest := if j == 0 then "." else ",", KeyText(keys[j]), KeysText(keys, j + 1);
    NoScheme(sep);
    assert t[0] == keys[j].name[0] && Plain(keys[j].name[0]);
    assert rest != "" ==> rest[0] == ',';
    hide HasScheme, KeyText;
    KeyTextScheme(keys[j]);
    SchemeJoin(sep, t);
    SchemeJoin(sep + t, rest);
  }

  // ---------------------------------------------------------------- print and parse

  /** A path to an instance on the local host: a normalised namespace, names free of delimiters, at least one key,
      and string values. */
  ghost predicate LocalInstance(p: Path) {
    && p.url == LOCAL && StripSlashes(Trim(p.nameSpace)) == p.nameSpace
    && (forall i :: 0 <= i < |p.nameSpace| ==> p.nameSpace[i] != ':')
    && IsName(p.className) && p.keys != [] && Printable(p.keys)
  }

  ghost predicate Quoted(t: string) { t != "" && t[|t| - 1] == '\"' }

  lemma {:induction false} QuotedJoin(a: string, b: string)
    requires Quoted(b) || (b == "" && Quoted(a))
    ensures Quoted(a + b)
  {
  }

  lemma {:induction false} TextEnds(keys: seq<Prop>, j: nat)
    requires j < |keys|
    ensures Quoted(KeysText(keys, j))
    decreases |keys| - j
  {
    hide Quoted, KeyText;
    var k, sep, rest := KeyText(keys[j]), if j == 0 then "." else ",", KeysText(keys, j + 1);
    KeyQuoted(keys[j]);
    QuotedJoin(sep, k);
    if j + 1 < |keys| { TextEnds(keys, j + 1); }
    QuotedJoin(sep + k, rest);
  }

  lemma {:induction false} KeyQuoted(k: Prop)
    ensures Quoted(KeyText(k))
  {
  }

  lemma {:induction false} Trimmed(p: Path)
    requires LocalInstance(p)
    ensures Trim(LocalText(p)) == LocalText(p) && LocalText(p) != "" && LocalText(p)[0] == '/'
  {
    TextEnds(p.keys, 0);
    QuotedJoin("/" + p.nameSpace + ":" + p.className, KeysText(p.keys, 0));
  }

  lemma {:induction false} TextScheme(p: Path)
    requires LocalInstance(p)
    ensures HasScheme(LocalText(p)) <==> UrlInside(p.keys, 0)
  {
    KeysTextScheme(p.keys, 0);
    var a, c, k := "/" + p.nameSpace, p.className, KeysText(p.keys, 0);
    NoScheme(a);
    assert !HasScheme(":") by { assert forall i: nat :: !SchemeAt(":", i); }
    SchemeJoin(a, ":");
    NoScheme(c) by { assert forall i :: 0 <= i < |c| ==> Plain(c[i]); }
    assert Plain(c[0]);
    SchemeJoin(a + ":", c);
    assert k[0] == '.';
    SchemeJoin(a + ":" + c, k);
    assert LocalText(p) == a + ":" + c + k;
  }

  lemma {:induction false} IndexIs(s: string, c: char, a: string, b: string)
    requires s == a + [c] + b && forall i :: 0 <= i < |a| ==> a[i] != c
    ensures IndexOf(s, c, 0) == |a| < |s| && s[..|a|] == a && s[|a| + 1..] == b
  {
    assert s[|a|] == c;
    assert forall i :: 0 <= i < |a| ==> s[i] == a[i];
  }

  /** Where `parse` cuts the rest of a printed path. */
  lemma {:induction false} RestCut(url: Url, ns: string, cls: string, keys: string)
    requires (forall i :: 0 <= i < |ns| ==> ns[i] != ':') && (forall i :: 0 <= i < |cls| ==> cls[i] != '.') && keys != ""
    ensures ParseRest(url, ns + ":" + cls + "." + keys) == match Scan(keys, 0, false, 0, 0, [])
      case Found(ks) => Parsed(Path(url, StripSlashes(Trim(ns)), cls, ks))
      case BadKey => Failed(NOT_FOUND)
  {
    hide Scan, Trim, StripSlashes, IndexOf;
    var rest := cls + "." + keys;
    var text := ns + ":" + cls + "." + keys;
    assert text == ns + [':'] + rest && rest == cls + ['.'] + keys;
    IndexIs(text, ':', ns, rest);
    IndexIs(rest, '.', cls, keys);
  }

  lemma {:induction false} FirstText(keys: seq<Prop>)
    requires keys != []
    ensures var t := KeyText(keys[0]) + KeysText(keys, 1); t != "" && KeysText(keys, 0) == "." + t
  {
  }

  lemma {:induction false} FirstKey(p: Path)
    requires LocalInstance(p)
    ensures var keys := KeyText(p.keys[0]) + KeysText(p.keys, 1); keys != "" && KeysText(p.keys, 0) == "." + keys
    ensures Scan(KeyText(p.keys[0]) + KeysText(p.keys, 1), 0, false, 0, 0, []) == Found(p.keys)
  {
    FirstText(p.keys);
    PrintedKeys(p.keys, 0);
    hide Scan, KeyText, KeysText, SpellKeys;
    var bare := seq(|p.keys|, _ => false);
    var text := KeyText(p.keys[0]) + KeysText(p.keys, 1);
    assert text == KeysText(p.keys, 0)[1..] == SpellKeys(p.keys, bare, 0);
    ScanWhole(p.keys, bare);
  }

  lemma {:induction false} RestRoundTrip(p: Path)
    requires LocalInstance(p)
    ensures ParseRest(LOCAL, p.nameSpace + ":" + p.className + KeysText(p.keys, 0)) == Parsed(p)
  {
    hide ParseRest, Scan, Trim, StripSlashes, KeyText, KeysText;
    FirstKey(p);
    var keys := KeyText(p.keys[0]) + KeysText(p.keys, 1);
    assert forall i :: 0 <= i < |p.className| ==> Plain(p.className[i]);
    RestCut(LOCAL, p.nameSpace, p.className, keys);
    assert p.nameSpace + ":" + p.className + KeysText(p.keys, 0) == p.nameSpace + ":" + p.className + "." + keys;
  }

  /** The rest of the text as `parse` sees it after the leading slash. */
  lemma {:induction false} AfterSlash(p: Path)
    ensures LocalText(p)[1..] == p.nameSpace + ":" + p.className + KeysText(p.keys, 0)
  {
  }

  lemma {:induction false} ParsesAsLocal(t: string, p: Path)
    requires t != "" && t[0] == '/' && Trim(t) == t && ParseRest(LOCAL, t[1..]) == Parsed(p) && p.url == LOCAL
    ensures ParseText(t) == Parsed(p) <==> !HasScheme(t)
  {
    hide ParseText, ParseRest, Trim, HasScheme;
    SchemeFound(t);
  }

  /** A printed path is parsed back to itself if and only if no value contains `://`. */
  lemma {:induction false} RoundTrip(p: Path)
    requires LocalInstance(p)
    ensures ParseText(LocalText(p)) == Parsed(p) <==> !UrlInside(p.keys, 0)
  {
    hide ParseText, ParseRest, Trim, UrlInside, HasScheme, LocalText, KeysText, StripSlashes;
    Trimmed(p);
    TextScheme(p);
    RestRoundTrip(p);
    AfterSlash(p);
    ParsesAsLocal(LocalText(p), p);
  }

  /** A text that starts with a slash is a local path unless it contains `://`, and then its protocol is not HTTP. */
  lemma {:induction false} SchemeFound(t: string)
    requires t != "" && t[0] == '/' && Trim(t) == t
    ensures !HasScheme(t) ==> ParseText(t) == ParseRest(LOCAL, t[1..])
    ensures HasScheme(t) && ParseText(t).Parsed? ==> ParseText(t).path.url != LOCAL
  {
    hide Trim, Scan, IndexOf, StripSlashes;
    var s := IndexOfScheme(t, 0);
    if HasScheme(t) {
      var i: nat :| SchemeAt(t, i);
      assert 0 < s < |t|;
      assert t[..s][0] == '/' && "HTTP"[0] == 'H';
    }
  }

  method PrintAndParse(p: Path) returns (r: Result)
    requires LocalInstance(p)
    ensures r == Parsed(p) <==> !UrlInside(p.keys, 0)
  {
    var text := ToString(p, true);
    assert "" + LocalText(p) == LocalText(p);
    r := Parse(text);
    RoundTrip(p);
  }

  /** A key whose value is a URL. */
  method UrlValue() returns (p: Path, r: Result)
    ensures LocalInstance(p) && r != Parsed(p)
  {
    p := Path(LOCAL, "root", "C", [Prop("k", Str("a://b/c"))]);
    assert SchemeAt(p.keys[0].value.text, 1);
    r := PrintAndParse(p);
  }
}
