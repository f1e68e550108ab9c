/** The texts that `parse` of OW_CIMObjectPath.cpp reads, and what it makes of them: blanks around, a URL or a slash
    or nothing in front, a namespace or none, a class, and keys with or without quotes. */
module PathForms {
  import opened ObjectPath

  // ---------------------------------------------------------------- blanks and slashes

  const BLANKS := " \t\n\r\U{B}\U{C}"

  ghost predicate Blank(s: string) { forall i :: 0 <= i < |s| ==> s[i] in BLANKS }

  /** No blank at either end. */
  ghost predicate Tight(t: string) { t != "" && t[0] !in BLANKS && t[|t| - 1] !in BLANKS }

  lemma {:induction false} SpaceIs(c: char)
    ensures Space(c) <==> c in BLANKS
  {
    assert Space(c) ==> c == BLANKS[0] || c == BLANKS[1] || c == BLANKS[2] || c == BLANKS[3] || c == BLANKS[4] || c == BLANKS[5];
  }

  lemma {:induction false} TrimsLeft(a: string, t: string)
    requires Blank(a) && (t == "" || t[0] !in BLANKS)
    ensures TrimLeft(a + t) == t
  {
    hide Space;
    if a == "" {
      assert a + t == t;
      if t != "" { SpaceIs(t[0]); }
    } else {
      SpaceIs(a[0]);
      assert (a + t)[1..] == a[1..] + t;
      TrimsLeft(a[1..], t);
    }
  }

  lemma {:induction false} TrimsRight(t: string, b: string)
    requires Blank(b) && (t == "" || t[|t| - 1] !in BLANKS)
    ensures TrimRight(t + b) == t
  {
    hide Space;
    if b == "" {
      assert t + b == t;
      if t != "" { SpaceIs(t[|t| - 1]); }
    } else {
      var n := |b| - 1;
      SpaceIs(b[n]);
      assert (t + b)[..|t + b| - 1] == t + b[..n];
      TrimsRight(t, b[..n]);
    }
  }

  /** `trim` takes the blanks off both ends and nothing else. */
  lemma {:induction false} Trims(a: string, t: string, b: string)
    requires Blank(a) && Blank(b) && (t == "" || Tight(t))
    ensures Trim(a + t + b) == t
  {
    if t == "" {
      assert a + t + b == (a + b) + "";
      TrimsLeft(a + b, "");
      TrimsRight("", "");
    } else {
      assert a + t + b == a + (t + b);
      TrimsLeft(a, t + b);
      TrimsRight(t, b);
    }
  }

  ghost predicate Slashes(s: string) { forall i :: 0 <= i < |s| ==> s[i] == '/' }

  lemma {:induction false} Strips(s: string, t: string)
    requires Slashes(s) && (t == "" || t[0] != '/')
    ensures StripSlashes(s + t) == t
  {
    if s == "" {
      assert s + t == t;
    } else {
      assert (s + t)[1..] == s[1..] + t;
      Strips(s[1..], t);
    }
  }

  /** `setNameSpace`: blanks around and slashes in front come off. */
  lemma {:induction false} NameSpaceIs(a: string, s: string, t: string, b: string)
    requires Blank(a) && Slashes(s) && Tight(t) && t[0] != '/' && Blank(b)
    ensures StripSlashes(Trim(a + (s + t) + b)) == t
  {
    Trims(a, s + t, b);
    Strips(s, t);
  }

  // ---------------------------------------------------------------- in front

  /** Nothing, or a slash, for the local host; or a URL, its port shown or left to the default. */
  datatype Origin = Here(slash: bool) | There(url: Url, shown: bool)

  ghost predicate Without(s: string, c: char) { forall i :: 0 <= i < |s| ==> s[i] != c }

  ghost predicate PlainUrl(u: Url) {
    Without(u.protocol, ':') && Without(u.host, ':') && Without(u.host, '/') && Without(u.port, '/')
  }

  function HostText(u: Url, shown: bool): string { if shown then u.host + ":" + u.port else u.host }

  function OriginText(o: Origin): string {
    match o
    case Here(slash) => if slash then "/" else ""
    case There(u, shown) => u.protocol + "://" + (HostText(u, shown) + "/")
  }

  function UrlOf(o: Origin): Url { if o.There? then o.url else Url("HTTP", "localhost", "5988") }

  lemma {:induction false} FirstScheme(a: string, b: string)
    requires Without(a, ':')
    ensures var t := a + "://" + b; IndexOfScheme(t, 0) == |a| < |t| && t[..|a|] == a && t[|a| + 3..] == b
  {
    var t := a + "://" + b;
    assert SchemeAt(t, |a|);
    assert forall i :: 0 <= i < |a| ==> t[i] == a[i];
  }

  lemma {:induction false} NoIndex(s: string, c: char)
    requires Without(s, c)
    ensures IndexOf(s, c, 0) == |s|
  {
  }

  lemma {:induction false} PortCut(u: Url, shown: bool)
    requires PlainUrl(u) && (shown || u.port == "5988")
    ensures var host := HostText(u, shown); var colon := IndexOf(host, ':', 0);
      && Without(host, '/') && (colon < |host| <==> shown)
      && (if shown then host[..colon] == u.host && host[colon + 1..] == u.port else host == u.host)
  {
    var host := HostText(u, shown);
    if shown {
      assert host == u.host + [':'] + u.port;
      IndexIs(host, ':', u.host, u.port);
    } else {
      NoIndex(host, ':');
    }
  }

  lemma {:induction false} ThereRead(u: Url, shown: bool, rest: string)
    requires PlainUrl(u) && (shown || u.port == "5988") && Tight(OriginText(There(u, shown)) + rest)
    ensures ParseText(OriginText(There(u, shown)) + rest) == ParseRest(u, rest)
  {
    var host := HostText(u, shown);
    var t, after := OriginText(There(u, shown)) + rest, host + "/" + rest;
    assert t == u.protocol + "://" + after && after == host + ['/'] + rest;
    assert "" + t + "" == t;
    hide ParseRest, Trim, IndexOf, IndexOfScheme, HostText, OriginText;
    Trims("", t, "");
    FirstScheme(u.protocol, after);
    PortCut(u, shown);
    IndexIs(after, '/', host, rest);
  }

  /** A URL that is not followed by a slash is refused. */
  lemma {:induction false} NoSlash(protocol: string, host: string)
    requires Without(protocol, ':') && Without(host, '/') && Tight(protocol + "://" + host)
    ensures ParseText(protocol + "://" + host) == Failed(INVALID_PARAMETER)
  {
    var t := protocol + "://" + host;
    assert "" + t + "" == t;
    hide Trim, IndexOf, IndexOfScheme;
    Trims("", t, "");
    FirstScheme(protocol, host);
    NoIndex(host, '/');
  }

  lemma {:induction false} HereRead(slash: bool, rest: string)
    requires var t := OriginText(Here(slash)) + rest; Tight(t) && !HasScheme(t) && (slash || t[0] != '/')
    ensures ParseText(OriginText(Here(slash)) + rest) == ParseRest(UrlOf(Here(slash)), rest)
  {
    var t := OriginText(Here(slash)) + rest;
    assert "" + t + "" == t && (if slash then t[1..] else t) == rest;
    hide ParseRest, Trim, IndexOfScheme;
    Trims("", t, "");
    assert IndexOfScheme(t, 0) == |t|;
  }

  ghost predicate OriginOk(o: Origin, t: string) {
    match o
    case Here(slash) => !HasScheme(t) && (slash || t == "" || t[0] != '/')
    case There(u, shown) => PlainUrl(u) && (shown || u.port == "5988")
  }

  lemma {:induction false} OriginRead(o: Origin, rest: string)
    requires Tight(OriginText(o) + rest) && OriginOk(o, OriginText(o) + rest)
    ensures ParseText(OriginText(o) + rest) == ParseRest(UrlOf(o), rest)
  {
    if o.Here? { HereRead(o.slash, rest); } else { ThereRead(o.url, o.shown, rest); }
  }

  // ---------------------------------------------------------------- namespace, class and keys

  function SpaceText(given: bool, ns: string): string { if given then ns + ":" else "" }

  lemma {:induction false} RestRead(url: Url, given: bool, ns: string, name: string)
    requires if given then Without(ns, ':') else Without(name, ':')
    ensures var text, dot := SpaceText(given, ns) + name, IndexOf(name, '.', 0);
      ParseRest(url, text) ==
        if dot == |name| || dot + 1 == |name| then Failed(INVALID_PARAMETER)
        else match Scan(name[dot + 1..], 0, false, 0, 0, [])
          case Found(keys) => Parsed(Path(url, if given then StripSlashes(Trim(ns)) else "root", name[..dot], keys))
          case BadKey => Failed(NOT_FOUND)
  {
    var text := SpaceText(given, ns) + name;
    assert text == if given then ns + [':'] + name else name;
    hide Scan, Trim, StripSlashes, IndexOf, SpaceText;
    RootIsRoot();
    if given { IndexIs(text, ':', ns, name); } else { NoIndex(text, ':'); }
  }

  lemma {:induction false} RootIsRoot()
    ensures StripSlashes(Trim("root")) == "root"
  {
    assert "" + ("" + "root") + "" == "root";
    NameSpaceIs("", "", "root", "");
  }

  /** Without a class and a dot, or with nothing after it, a path is refused. */
  lemma {:induction false} NoKeys(url: Url, given: bool, ns: string, cls: string)
    requires (if given then Without(ns, ':') else Without(cls, ':')) && Without(cls, '.')
    ensures ParseRest(url, SpaceText(given, ns) + cls) == Failed(INVALID_PARAMETER)
    ensures ParseRest(url, SpaceText(given, ns) + (cls + ".")) == Failed(INVALID_PARAMETER)
  {
    hide ParseRest, IndexOf, Scan;
    RestRead(url, given, ns, cls);
    NoIndex(cls, '.');
    var name := cls + ".";
    assert name == cls + ['.'] + "";
    IndexIs(name, '.', cls, "");
    RestRead(url, given, ns, name);
  }

  lemma {:induction false} ClassRead(url: Url, given: bool, ns: string, cls: string, keys: string)
    requires Without(cls, '.') && keys != "" && if given then Without(ns, ':') else Without(cls, ':') && Without(keys, ':')
    ensures ParseRest(url, SpaceText(given, ns) + (cls + "." + keys)) == match Scan(keys, 0, false, 0, 0, [])
      case Found(ks) => Parsed(Path(url, if given then StripSlashes(Trim(ns)) else "root", cls, ks))
      case BadKey => Failed(NOT_FOUND)
  {
    var name := cls + "." + keys;
    assert name == cls + ['.'] + keys;
    IndexIs(name, '.', cls, keys);
    hide ParseRest, IndexOf, Scan, Trim, StripSlashes;
    RestRead(url, given, ns, name);
  }

  // ---------------------------------------------------------------- whole paths

  function PathText(o: Origin, given: bool, ns: string, cls: string, keys: string): string {
    OriginText(o) + (SpaceText(given, ns) + (cls + "." + keys))
  }

  /** What can be written so that it is read as meant.  Without a namespace no value may hold a colon, and on the
      local host no `://` may occur anywhere. */
  ghost predicate Readable(o: Origin, given: bool, ns: string, cls: string, keys: string) {
    && IsName(cls) && (if given then Without(ns, ':') else Without(keys, ':'))
    && Tight(PathText(o, given, ns, cls, keys)) && OriginOk(o, PathText(o, given, ns, cls, keys))
  }

  lemma {:induction false} PathRead(o: Origin, given: bool, ns: string, cls: string, keys: string)
    requires Readable(o, given, ns, cls, keys) && keys != ""
    ensures ParseText(PathText(o, given, ns, cls, keys)) == match Scan(keys, 0, false, 0, 0, [])
      case Found(ks) => Parsed(Path(UrlOf(o), if given then StripSlashes(Trim(ns)) else "root", cls, ks))
      case BadKey => Failed(NOT_FOUND)
  {
    hide ParseRest, ParseText, Scan, Trim, StripSlashes;
    forall i | 0 <= i < |cls|
      ensures cls[i] != '.' && cls[i] != ':'
    {
      assert Plain(cls[i]);
    }
    OriginRead(o, SpaceText(given, ns) + (cls + "." + keys));
    ClassRead(UrlOf(o), given, ns, cls, keys);
  }

  /** Every path written in one of these forms is read as what it says. */
  method ParseWritten(a: string, o: Origin, given: bool, ns: string, cls: string, keys: seq<Prop>, bare: seq<bool>, b: string) returns (r: Result)
    requires Blank(a) && Blank(b) && AllSpellable(keys, bare) && keys != [] && Readable(o, given, ns, cls, SpellKeys(keys, bare, 0))
    ensures r == Parsed(Path(UrlOf(o), if given then StripSlashes(Trim(ns)) else "root", cls, keys))
  {
    hide ParseText, Scan, Trim, StripSlashes, SpellKeys, PathText;
    var text := PathText(o, given, ns, cls, SpellKeys(keys, bare, 0));
    r := Parse(a + text + b);
    TrimFirst(a, text, b);
    ScanWhole(keys, bare);
    PathRead(o, given, ns, cls, SpellKeys(keys, bare, 0));
  }

  lemma {:induction false} TrimFirst(a: string, t: string, b: string)
    requires Blank(a) && Blank(b) && Tight(t)
    ensures ParseText(a + t + b) == ParseText(t)
  {
    hide Trim, ParseRest, IndexOf, IndexOfScheme;
    Trims(a, t, b);
    Trims("", t, "");
    assert "" + t + "" == t;
  }

  /** A blank text is no path at all, and one whose last key has no equals sign is not found. */
  method ParseNothing(a: string, o: Origin, given: bool, ns: string, cls: string, keys: seq<Prop>, bare: seq<bool>, name: string) returns (r: Result, r': Result)
    requires Blank(a) && AllSpellable(keys, bare) && keys != [] && IsName(name) && |name| > 1
    requires Readable(o, given, ns, cls, SpellKeys(keys, bare, 0) + ("," + name))
    ensures r == NoPath && r' == Failed(NOT_FOUND)
  {
    hide Scan, Trim, StripSlashes, SpellKeys, PathText, ParseRest;
    r := Parse(a);
    assert a + "" + "" == a;
    Trims(a, "", "");
    r' := Parse(PathText(o, given, ns, cls, SpellKeys(keys, bare, 0) + ("," + name)));
    ScanThenName(keys, bare, name);
    PathRead(o, given, ns, cls, SpellKeys(keys, bare, 0) + ("," + name));
  }

  // ---------------------------------------------------------------- printed paths

  /** A null value is printed as the text null. */
  function AsText(keys: seq<Prop>): seq<Prop> { seq(|keys|, i requires 0 <= i < |keys| => if keys[i].value.Null? then Prop(keys[i].name, Str("null")) else keys[i]) }

  lemma {:induction false} PrintsAlike(keys: seq<Prop>, i: nat)
    requires i <= |keys|
    ensures KeysText(keys, i) == KeysText(AsText(keys), i)
    decreases |keys| - i
  {
    if i < |keys| {
      assert Escaped("null", 0) == "null" by { NullText(); }
      PrintsAlike(keys, i + 1);
    }
  }

  lemma {:induction false} NullText()
    ensures Escaped("null", 0) == "null"
  {
    assert Escaped("null", 4) == "" && Escaped("null", 3) == "l" && Escaped("null", 2) == "ll" && Escaped("null", 1) == "ull";
  }

  ghost predicate Named(keys: seq<Prop>) { keys != [] && forall i :: 0 <= i < |keys| ==> IsName(keys[i].name) }

  /** What is printed of a URL that lacks a protocol or a host. */
  function Shown(u: Url): Url { Url(if u.protocol == "" then "HTTP" else u.protocol, if u.host == "" then "localhost" else u.host, u.port) }

  lemma {:induction false} PrintedForm(p: Path)
    requires p.keys != []
    ensures AuthorityText(p.url) + LocalText(p)
      == PathText(There(Shown(p.url), p.url.port != "5988"), true, p.nameSpace, p.className, SpellKeys(AsText(p.keys), seq(|p.keys|, _ => false), 0))
  {
    PrintsAlike(p.keys, 0);
    PrintedKeys(AsText(p.keys), 0);
    var bare := seq(|p.keys|, _ => false);
    var keys := SpellKeys(AsText(p.keys), bare, 0);
    assert KeysText(p.keys, 0) == "." + keys;
    hide SpellKeys, KeysText;
    var u, ns, cls := Shown(p.url), p.nameSpace, p.className;
    var port := if u.port == "5988" then "" else ":" + u.port;
    assert AuthorityText(p.url) == u.protocol + "://" + u.host + port && HostText(u, u.port != "5988") == u.host + port;
    FormsAgree(u.protocol, u.host, port, ns, cls, keys);
  }

  lemma {:induction false} FormsAgree(a: string, h: string, p: string, ns: string, cls: string, keys: string)
    ensures a + "://" + h + p + ("/" + ns + ":" + cls + ("." + keys)) == a + "://" + (h + p + "/") + (ns + ":" + (cls + "." + keys))
  {
  }

  /** A path on another host, printed and parsed, is the same path, whatever its values hold; a null value comes back as
      the text null, and a missing protocol or host as the default. */
  method RemoteRoundTrip(p: Path) returns (r: Result)
    requires PlainUrl(Shown(p.url)) && Shown(p.url).protocol[0] !in BLANKS
    requires StripSlashes(Trim(p.nameSpace)) == p.nameSpace && Without(p.nameSpace, ':') && IsName(p.className) && Named(p.keys)
    ensures r == Parsed(p.(url := Shown(p.url), keys := AsText(p.keys)))
  {
    var text := ToString(p, false);
    PrintedForm(p);
    r := Parse(text);
    RemoteRead(p, text);
  }

  lemma {:induction false} RemoteRead(p: Path, text: string)
    requires PlainUrl(Shown(p.url)) && Shown(p.url).protocol[0] !in BLANKS && text == AuthorityText(p.url) + LocalText(p)
    requires StripSlashes(Trim(p.nameSpace)) == p.nameSpace && Without(p.nameSpace, ':') && IsName(p.className) && Named(p.keys)
    ensures ParseText(text) == Parsed(p.(url := Shown(p.url), keys := AsText(p.keys)))
  {
    var keys, bare := AsText(p.keys), seq(|p.keys|, _ => false);
    PrintedForm(p);
    RemoteTight(p, text);
    hide ParseText, ParseRest, Scan, Trim, StripSlashes, SpellKeys, PathText, LocalText, AuthorityText, Tight;
    assert AllSpellable(keys, bare);
    ScanWhole(keys, bare);
    PathRead(There(Shown(p.url), p.url.port != "5988"), true, p.nameSpace, p.className, SpellKeys(keys, bare, 0));
  }

  lemma {:induction false} RemoteTight(p: Path, text: string)
    requires Shown(p.url).protocol[0] !in BLANKS && text == AuthorityText(p.url) + LocalText(p) && p.keys != []
    ensures Tight(text)
  {
    TextEnds(p.keys, 0);
    QuotedJoin("/" + p.nameSpace + ":" + p.className, KeysText(p.keys, 0));
    QuotedJoin(AuthorityText(p.url), LocalText(p));
    assert AuthorityText(p.url)[0] == Shown(p.url).protocol[0];
  }

  /** On the local host the same holds if and only if no value contains `://`. */
  method LocalRoundTrip(p: Path) returns (r: Result)
    requires LocalInstance(p.(keys := AsText(p.keys)))
    ensures r == Parsed(p.(keys := AsText(p.keys))) <==> !UrlInside(AsText(p.keys), 0)
  {
    var text := ToString(p, true);
    PrintsAlike(p.keys, 0);
    assert "" + LocalText(p) == LocalText(p) == LocalText(p.(keys := AsText(p.keys)));
    r := Parse(text);
    RoundTrip(p.(keys := AsText(p.keys)));
  }
}
