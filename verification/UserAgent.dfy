/**
 User-Agent products: the parser of useragent/from.go and the printer of
 internal/config/user_agent.go. Strings are sequences of code points.
 */
module UserAgent {
  import opened Strings

  // --------------------------------------------- the library functions used

  // The pieces between the opening parentheses.
  function SplitParen(s: string): (r: seq<string>)
    ensures |r| >= 1
    decreases |s|
  {
    var i := IndexFrom(s, '(', 0);
    if i == |s| then [s] else [s[..i]] + SplitParen(s[i + 1..])
  }

  predicate IsSpace(c: char) {
    var n := c as int;
    || 0x09 <= n <= 0x0D || n == 0x20 || n == 0x85 || n == 0xA0 || n == 0x1680
    || 0x2000 <= n <= 0x200A || n == 0x2028 || n == 0x2029 || n == 0x202F || n == 0x205F || n == 0x3000
  }

  function TrimLeft(s: string): string {
    if s != "" && IsSpace(s[0]) then TrimLeft(s[1..]) else s
  }

  function TrimRight(s: string): string {
    if s != "" && IsSpace(s[|s| - 1]) then TrimRight(s[..|s| - 1]) else s
  }

  function TrimSpace(s: string): string {
    TrimRight(TrimLeft(s))
  }

  function TrimClosing(s: string): string {
    if s != "" && s[|s| - 1] == ')' then s[..|s| - 1] else s
  }

  // ------------------------------------------------------------- from.go

  datatype Product = Product(name: string, version: string, comment: string)

  // The generic argument: a string or anything else.
  datatype Value = Str(s: string) | NotAString

  function FromVersion(name: string, version: string): Product {
    var parts := SplitParen(version);
    if |parts| == 2 then Product(name, TrimSpace(parts[0]), TrimClosing(parts[1]))
    else Product(name, version, "")
  }

  function From(v: Value): Product {
    match v
    case Str(s) =>
      var idx := LastIndex(s, '/');
      if idx != -1 then FromVersion(s[..idx], s[idx + 1..]) else Product(s, "", "")
    case NotAString => Product("", "", "")
  }

  function FromSlice(sl: seq<Value>): (r: seq<Product>)
    ensures |r| == |sl|
  {
    seq(|sl|, i requires 0 <= i < |sl| => From(sl[i]))
  }

  // -------------------------------------------------------- user_agent.go

  /** Smithy's builder: it collects the parts and joins them with one space. */
  class UserAgentBuilder {
    var parts: seq<string>

    constructor ()
      ensures parts == []
    {
      parts := [];
    }

    method AddKey(key: string)
      modifies this
      ensures parts == old(parts) + [key]
    {
      parts := parts + [key];
    }

    method AddKeyValue(key: string, value: string)
      modifies this
      ensures parts == old(parts) + [key + "/" + value]
    {
      parts := parts + [key + "/" + value];
    }

    method Build() returns (s: string)
      ensures s == Join(parts, " ")
    {
      s := Join(parts, " ");
    }
  }

  function Parts(p: Product): seq<string> {
    (if p.name == "" then []
     else if p.version != "" then [p.name + "/" + p.version]
     else [p.name])
    + (if p.comment != "" then ["(" + p.comment + ")"] else [])
  }

  function AllParts(ps: seq<Product>): seq<string> {
    if ps == [] then [] else AllParts(ps[..|ps| - 1]) + Parts(ps[|ps| - 1])
  }

  method BuildUserAgentPart(p: Product, b: UserAgentBuilder)
    modifies b
    ensures b.parts == old(b.parts) + Parts(p)
  {
    if p.name != "" {
      if p.version != "" {
        b.AddKeyValue(p.name, p.version);
      } else {
        b.AddKey(p.name);
      }
    }
    if p.comment != "" {
      b.AddKey("(" + p.comment + ")");
    }
  }

  method BuildUserAgentString(ua: seq<Product>) returns (s: string)
    ensures s == Join(AllParts(ua), " ")
  {
    var builder := new UserAgentBuilder();
    for i := 0 to |ua|
      invariant builder.parts == AllParts(ua[..i])
    {
      assert ua[..i + 1][..i] == ua[..i];
      BuildUserAgentPart(ua[i], builder);
    }
    assert ua[..|ua|] == ua;
    s := builder.Build();
  }

  function Print(p: Product): string {
    Join(Parts(p), " ")
  }

  // ------------------------------------------------- facts about the pieces

  predicate Trimmed(s: string) {
    TrimSpace(s) == s
  }

  function Parens(s: string): nat {
    multiset(s)['(']
  }

  lemma {:induction false} SplitParenCount(s: string)
    ensures |SplitParen(s)| == 1 + Parens(s)
    decreases |s|
  {
    var i := IndexFrom(s, '(', 0);
    if i < |s| {
      SplitParenCount(s[i + 1..]);
      assert s == s[..i] + ["("[0]] + s[i + 1..];
      assert '(' !in s[..i];
    } else {
      assert '(' !in s;
    }
  }

  lemma FirstParenAt(before: string, after: string)
    requires '(' !in before
    ensures IndexFrom(before + "(" + after, '(', 0) == |before|
  {
    var s := before + "(" + after;
    assert s[|before|] == '(';
    assert forall k :: 0 <= k < |before| ==> s[k] == before[k];
  }

  lemma SplitParenNone(s: string)
    ensures |SplitParen(s)| == 1 ==> SplitParen(s) == [s] && '(' !in s
    ensures '(' !in s ==> SplitParen(s) == [s]
  {
  }

  // Two pieces: the text around the only parenthesis.
  lemma SplitParenAt(before: string, after: string)
    requires '(' !in before && '(' !in after
    ensures SplitParen(before + "(" + after) == [before, after]
  {
    var s := before + "(" + after;
    FirstParenAt(before, after);
    SplitParenNone(after);
    assert s[|before| + 1..] == after && s[..|before|] == before;
  }

  lemma SplitParenTwo(s: string)
    requires |SplitParen(s)| == 2
    ensures var parts := SplitParen(s);
            s == parts[0] + "(" + parts[1] && '(' !in parts[0] && '(' !in parts[1]
  {
    var i := IndexFrom(s, '(', 0);
    SplitParenNone(s[i + 1..]);
    assert s == s[..i] + "(" + s[i + 1..];
  }

  lemma {:induction false} TrimRightFacts(s: string)
    ensures TrimRight(s) <= s
    ensures TrimRight(s) == s <==> s == "" || !IsSpace(s[|s| - 1])
    ensures TrimRight(s) != "" ==> !IsSpace(TrimRight(s)[|TrimRight(s)| - 1])
  {
    if s != "" && IsSpace(s[|s| - 1]) {
      TrimRightFacts(s[..|s| - 1]);
    }
  }

  lemma {:induction false} TrimLeftFacts(s: string)
    ensures |TrimLeft(s)| <= |s| && TrimLeft(s) == s[|s| - |TrimLeft(s)|..]
    ensures TrimLeft(s) == s <==> s == "" || !IsSpace(s[0])
    ensures TrimLeft(s) != "" ==> !IsSpace(TrimLeft(s)[0])
  {
    if s != "" && IsSpace(s[0]) {
      TrimLeftFacts(s[1..]);
    }
  }

  // Trimmed texts neither start nor end with white space; trimming yields one.
  lemma TrimmedIff(s: string)
    ensures Trimmed(s) <==> s == "" || (!IsSpace(s[0]) && !IsSpace(s[|s| - 1]))
    ensures Trimmed(TrimSpace(s))
    ensures forall c :: c in TrimSpace(s) ==> c in s
  {
    var l := TrimLeft(s);
    TrimLeftFacts(s);
    TrimRightFacts(l);
    TrimLeftFacts(TrimRight(l));
    TrimRightFacts(TrimRight(l));
    TrimRightFacts(s);
  }

  lemma TrimTrailingSpace(v: string)
    requires v != "" && Trimmed(v)
    ensures TrimSpace(v + " ") == v
  {
    TrimmedIff(v);
    TrimLeftFacts(v + " ");
    TrimRightFacts(v);
    assert (v + " ")[..|v|] == v;
  }

  // What `From` makes of a text with a known slash in it.
  lemma FromAtSlash(name: string, version: string)
    ensures var p := From(Str(name + "/" + version));
            if '/' in version then |p.name| > |name| else p == FromVersion(name, version)
  {
    var s := name + "/" + version;
    assert s[|name|] == '/';
    assert s[|name| + 1..] == version && s[..|name|] == name;
    assert forall k :: |name| < k < |s| ==> s[k] == version[k - |name| - 1];
    if '/' in version {
      var i :| 0 <= i < |version| && version[i] == '/';
      assert s[|name| + 1 + i] == '/';
    }
  }

  lemma FromVersionWhole(name: string, version: string)
    ensures FromVersion(name, version) == Product(name, version, "") <==> Parens(version) != 1
  {
    SplitParenCount(version);
    if Parens(version) == 1 {
      var parts := SplitParen(version);
      SplitParenTwo(version);
      TrimmedIff(parts[0]);
      assert '(' in version && '(' !in TrimSpace(parts[0]);
    }
  }

  lemma JoinTwo(a: string, b: string)
    ensures Join([a, b], " ") == a + " " + b
  {
    assert [a, b][1..] == [b];
    assert Join([b], " ") == b;
  }

  lemma PrintFull(p: Product)
    requires p.name != "" && p.version != "" && p.comment != ""
    ensures Print(p) == p.name + "/" + ((p.version + " ") + "(" + (p.comment + ")"))
  {
    var a, b := p.name + "/" + p.version, "(" + p.comment + ")";
    assert Parts(p) == [a, b];
    JoinTwo(a, b);
    assert p.name + "/" + ((p.version + " ") + "(" + (p.comment + ")")) == a + " " + b;
  }

  // -------------------------------------------- every text, every product

  // Unicode's white space, by code point.
  lemma SpacesAre(c: char)
    ensures IsSpace(c) <==>
            c as int in {9, 10, 11, 12, 13, 32, 0x85, 0xA0, 0x1680, 0x2000, 0x2001, 0x2002, 0x2003, 0x2004, 0x2005,
                         0x2006, 0x2007, 0x2008, 0x2009, 0x200A, 0x2028, 0x2029, 0x202F, 0x205F, 0x3000}
  {
  }

  predicate AllSpace(s: string) {
    forall i :: 0 <= i < |s| ==> IsSpace(s[i])
  }

  // Text with no white space at either end.
  predicate Bare(s: string) {
    s == "" || (!IsSpace(s[0]) && !IsSpace(s[|s| - 1]))
  }

  lemma {:induction false} TrimsLeft(l: string, s: string)
    requires AllSpace(l) && (s == "" || !IsSpace(s[0]))
    ensures TrimLeft(l + s) == s
  {
    if l == "" {
      assert l + s == s;
    } else {
      TrimsLeft(l[1..], s);
      assert (l + s)[1..] == l[1..] + s;
    }
  }

  lemma {:induction false} TrimsRight(s: string, r: string)
    requires AllSpace(r) && (s == "" || !IsSpace(s[|s| - 1]))
    ensures TrimRight(s + r) == s
  {
    if r == "" {
      assert s + r == s;
    } else {
      TrimsRight(s, r[..|r| - 1]);
      assert (s + r)[..|s + r| - 1] == s + r[..|r| - 1];
    }
  }

  lemma Trims(l: string, v: string, r: string)
    requires AllSpace(l) && AllSpace(r) && Bare(v)
    ensures TrimSpace(l + v + r) == v
  {
    if v == "" {
      assert l + v + r == (l + r) + "";
      TrimsLeft(l + r, "");
    } else {
      assert l + v + r == l + (v + r);
      TrimsLeft(l, v + r);
      TrimsRight(v, r);
    }
  }

  // What is parsed from any value. A text without a slash is a name; after the last
  // slash comes the version, unless exactly one parenthesis is opened there.
  lemma FromIs(name: string, t: string)
    requires '/' !in t
    ensures From(NotAString) == Product("", "", "") && From(Str(t)) == Product(t, "", "")
    ensures Parens(t) != 1 ==> From(Str(name + "/" + t)) == Product(name, t, "")
  {
    FromAtSlash(name, t);
    FromVersionWhole(name, t);
  }

  lemma SpaceIsPlain(s: string)
    requires AllSpace(s)
    ensures '/' !in s && '(' !in s
  {
  }

  lemma FromWithParen(name: string, before: string, after: string)
    requires '/' !in before && '(' !in before && '/' !in after && '(' !in after
    ensures From(Str(name + "/" + (before + "(" + after))) == Product(name, TrimSpace(before), TrimClosing(after))
  {
    SplitParenAt(before, after);
    FromAtSlash(name, before + "(" + after);
  }

  // With one, the version is what is before it, without white space around it, and
  // the comment what is after it, without a closing parenthesis at the end.
  lemma FromCommentIs(name: string, l: string, v: string, r: string, c: string)
    requires AllSpace(l) && AllSpace(r) && Bare(v)
    requires '/' !in v && '(' !in v && '/' !in c && '(' !in c
    ensures c == "" || c[|c| - 1] != ')' ==> From(Str(name + "/" + (l + v + r + "(" + c))) == Product(name, v, c)
    ensures From(Str(name + "/" + (l + v + r + "(" + (c + ")")))) == Product(name, v, c)
  {
    Trims(l, v, r);
    SpaceIsPlain(l);
    SpaceIsPlain(r);
    FromWithParen(name, l + v + r, c);
    FromWithParen(name, l + v + r, c + ")");
    assert (c + ")")[..|c|] == c;
  }

  // What is printed for any product.
  lemma PrintIs(p: Product)
    ensures p.name != "" && p.version != "" && p.comment != "" ==>
              Print(p) == p.name + "/" + p.version + " (" + p.comment + ")"
    ensures p.name != "" && p.version != "" && p.comment == "" ==> Print(p) == p.name + "/" + p.version
    ensures p.name != "" && p.version == "" && p.comment != "" ==> Print(p) == p.name + " (" + p.comment + ")"
    ensures p.name != "" && p.version == "" && p.comment == "" ==> Print(p) == p.name
    ensures p.name == "" && p.comment != "" ==> Print(p) == "(" + p.comment + ")"
    ensures p.name == "" && p.comment == "" ==> Print(p) == ""
  {
    var head := if p.version != "" then p.name + "/" + p.version else p.name;
    var tail := "(" + p.comment + ")";
    if p.name != "" && p.comment != "" {
      assert Parts(p) == [head, tail];
      JoinTwo(head, tail);
    } else if p.name != "" {
      assert Parts(p) == [head];
    } else if p.comment != "" {
      assert Parts(p) == [tail];
    }
  }

  // --------------------------------------------------------- parse of print

  // The products that survive being printed and parsed.
  predicate Reparses(p: Product) {
    if p.name == "" then p.version == "" && p.comment == ""
    else if p.version == "" then p.comment == "" && '/' !in p.name
    else if p.comment == "" then '/' !in p.version && Parens(p.version) != 1
    else
      && '/' !in p.version && '(' !in p.version && Trimmed(p.version)
      && '/' !in p.comment && '(' !in p.comment
  }

  lemma ReparseNameOnly(p: Product)
    requires p.version == "" || p.name == ""
    ensures From(Str(Print(p))) == p <==> Reparses(p)
  {
    var s := Print(p);
    var idx := LastIndex(s, '/');
  }

  lemma ReparseVersion(p: Product)
    requires p.name != "" && p.version != "" && p.comment == ""
    ensures From(Str(Print(p))) == p <==> Reparses(p)
  {
    assert Parts(p) == [p.name + "/" + p.version];
    FromAtSlash(p.name, p.version);
    FromVersionWhole(p.name, p.version);
  }

  lemma ReparseCommentText(name: string, v: string, c: string)
    requires v != "" && c != ""
    ensures FromVersion(name, (v + " ") + "(" + (c + ")")) == Product(name, v, c)
       <==> '(' !in v && Trimmed(v) && '(' !in c
  {
    var before, after := v + " ", c + ")";
    assert '(' in before <==> '(' in v;
    assert '(' in after <==> '(' in c;
    if '(' !in before && '(' !in after {
      SplitParenAt(before, after);
      TrimmedIff(before);
      if Trimmed(v) { TrimTrailingSpace(v); }
      assert TrimClosing(after) == c;
    } else {
      assert Parens(before + "(" + after) == Parens(before) + 1 + Parens(after);
      FromVersionWhole(name, before + "(" + after);
    }
  }

  lemma ReparseComment(p: Product)
    requires p.name != "" && p.version != "" && p.comment != ""
    ensures From(Str(Print(p))) == p <==> Reparses(p)
  {
    var version := (p.version + " ") + "(" + (p.comment + ")");
    PrintFull(p);
    FromAtSlash(p.name, version);
    ReparseCommentText(p.name, p.version, p.comment);
    assert '/' in version <==> '/' in p.version || '/' in p.comment;
  }

  // Parsing undoes printing exactly on these products.
  lemma FromPrint(p: Product)
    ensures From(Str(Print(p))) == p <==> Reparses(p)
  {
    if p.name == "" || p.version == "" {
      ReparseNameOnly(p);
    } else if p.comment == "" {
      ReparseVersion(p);
    } else {
      ReparseComment(p);
    }
  }

  // --------------------------------------------------------- print of parse

  // `v (c)` with v trimmed, both non-empty and no further parenthesis opened.
  predicate VersionWithComment(t: string) {
    var parts := SplitParen(t);
    && |parts| == 2
    && |parts[0]| > 1 && parts[0][|parts[0]| - 1] == ' ' && Trimmed(parts[0][..|parts[0]| - 1])
    && |parts[1]| > 1 && parts[1][|parts[1]| - 1] == ')'
  }

  // The texts that survive being parsed and printed.
  predicate Reprints(s: string) {
    var idx := LastIndex(s, '/');
    idx == -1 ||
    (0 < idx < |s| - 1 && (Parens(s[idx + 1..]) != 1 || VersionWithComment(s[idx + 1..])))
  }

  lemma ReprintComment(name: string, before: string, after: string)
    requires '(' !in before && '(' !in after
    ensures var t := before + "(" + after;
            Print(Product(name, TrimSpace(before), TrimClosing(after))) == name + "/" + t
            <==> name != "" && VersionWithComment(t)
  {
    var v, c, t := TrimSpace(before), TrimClosing(after), before + "(" + after;
    var p := Product(name, v, c);
    SplitParenAt(before, after);
    TrimmedIff(before);
    if VersionWithComment(t) {
      var w := before[..|before| - 1];
      assert before == w + " ";
      TrimTrailingSpace(w);
    }
    if name != "" && v != "" && c != "" {
      PrintFull(p);
      if Print(p) == name + "/" + t {
        SamePieces(name + "/", (v + " ") + "(" + (c + ")"), t);
        SplitParenAt(v + " ", c + ")");
      }
    } else {
      ReprintEmpty(p, before, after);
    }
  }

  lemma ReprintEmpty(p: Product, before: string, after: string)
    requires p.name == "" || p.version == "" || p.comment == ""
    requires '(' !in p.version
    ensures Print(p) != p.name + "/" + (before + "(" + after)
  {
    var t := before + "(" + after;
    assert t[|before|] == '(';
    if p.name != "" && p.version != "" {
      assert Parts(p) == [p.name + "/" + p.version];
      if Print(p) == p.name + "/" + t {
        SamePieces(p.name + "/", p.version, t);
      }
    } else if p.name != "" && p.comment != "" {
      var b := "(" + p.comment + ")";
      assert Parts(p) == [p.name, b];
      JoinTwo(p.name, b);
      assert Print(p)[|p.name|] == ' ';
    } else if p.name != "" {
      assert Parts(p) == [p.name];
    } else if p.comment != "" {
      assert Parts(p) == ["(" + p.comment + ")"];
      assert Print(p)[0] == '(';
    }
  }

  lemma SamePieces(x: string, a: string, b: string)
    requires x + a == x + b
    ensures a == b
  {
    assert (x + a)[|x|..] == a && (x + b)[|x|..] == b;
  }

  lemma ReprintAtSlash(name: string, t: string)
    requires '/' !in t
    ensures Print(FromVersion(name, t)) == name + "/" + t <==>
            name != "" && t != "" && (Parens(t) != 1 || VersionWithComment(t))
  {
    FromVersionWhole(name, t);
    if Parens(t) == 1 {
      SplitParenCount(t);
      SplitParenTwo(t);
      var parts := SplitParen(t);
      ReprintComment(name, parts[0], parts[1]);
    } else {
      PrintIs(Product(name, t, ""));
      assert |name + "/" + t| == |name| + 1 + |t|;
    }
  }

  lemma PrintFrom(s: string)
    ensures Print(From(Str(s))) == s <==> Reprints(s)
  {
    var idx := LastIndex(s, '/');
    if idx == -1 {
      PrintIs(Product(s, "", ""));
    } else {
      assert s == s[..idx] + "/" + s[idx + 1..];
      ReprintAtSlash(s[..idx], s[idx + 1..]);
    }
  }

  // -------------------------------------------------------- whole header

  ghost function Texts(vs: seq<Value>): seq<string>
    requires forall i :: 0 <= i < |vs| ==> vs[i].Str?
  {
    if vs == [] then [] else Texts(vs[..|vs| - 1]) + [vs[|vs| - 1].s]
  }

  // A list of product strings, none empty and each of the form above, goes
  // through the parser and the printer unchanged.
  lemma {:induction false} SliceReprints(vs: seq<Value>)
    requires forall i :: 0 <= i < |vs| ==> vs[i].Str? && vs[i].s != "" && Reprints(vs[i].s)
    ensures Join(AllParts(FromSlice(vs)), " ") == Join(Texts(vs), " ")
    ensures AllParts(FromSlice(vs)) == [] <==> vs == []
    ensures Texts(vs) == [] <==> vs == []
  {
    if vs != [] {
      var front, last := vs[..|vs| - 1], vs[|vs| - 1];
      SliceReprints(front);
      PrintFrom(last.s);
      assert FromSlice(vs)[..|vs| - 1] == FromSlice(front);
      JoinAppend(AllParts(FromSlice(front)), Parts(From(last)), " ");
      JoinAppend(Texts(front), [last.s], " ");
    }
  }
}
