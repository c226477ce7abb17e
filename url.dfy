/**
 * URL and path plumbing shared by both downloaders: percent-decoding
 * (section 2.1 of RFC 3986, as `urllib.parse.unquote` does it), the
 * components `urllib.parse.urlsplit` yields, `parse_qs`-style query
 * fields and the `os.path` helpers `basename`, `dirname` and `join`.
 */
module Url {
  import opened Wrappers
  import opened Text

  // ---------------------------------------------------------------- percent-decoding

  /** `unquote`: every `%` followed by two hexadecimal digits becomes the character with that code. */
  function Unquote(s: string): (r: string)
    ensures |r| <= |s|
    decreases |s|
  {
    if s == [] then []
    else if EscapeAhead(s) then [EscapedChar(s)] + Unquote(s[3..])
    else [s[0]] + Unquote(s[1..])
  }

  /** `s` starts with `%` and two hexadecimal digits. */
  predicate EscapeAhead(s: string) { |s| >= 3 && s[0] == '%' && IsHexDigit(s[1]) && IsHexDigit(s[2]) }

  function EscapedChar(s: string): char
    requires EscapeAhead(s)
  {
    (16 * HexValue(s[1]) + HexValue(s[2])) as char
  }

  predicate NoPercent(s: string) { forall i :: 0 <= i < |s| ==> s[i] != '%' }

  lemma {:induction false} UnquoteWithoutPercent(s: string)
    requires NoPercent(s)
    ensures Unquote(s) == s
  {
    if s != [] {
      UnquoteWithoutPercent(s[1..]);
    }
  }

  /**
   * Decoding splits over a concatenation whose right part cannot complete an
   * escape begun at the end of the left part.
   */
  lemma {:induction false} UnquoteAppend(p: string, t: string)
    requires t == [] || !IsHexDigit(t[0])
    ensures Unquote(p + t) == Unquote(p) + Unquote(t)
    decreases |p|
  {
    var s := p + t;
    if p == [] {
      assert s == t;
    } else if EscapeAhead(p) {
      assert s[..3] == p[..3];
      assert EscapeAhead(s) && EscapedChar(s) == EscapedChar(p);
      assert s[3..] == p[3..] + t;
      UnquoteAppend(p[3..], t);
    } else {
      assert !EscapeAhead(s) by {
        if |s| >= 3 && |p| < 3 {
          assert s[|p|] == t[0];
        } else if |p| >= 3 {
          assert s[..3] == p[..3];
        }
      }
      assert s[0] == p[0];
      assert s[1..] == p[1..] + t;
      UnquoteAppend(p[1..], t);
    }
  }

  /** Percent-encoding of every character of a Latin-1 string: the inverse partner of `Unquote`. */
  function PercentEncode(s: string): (r: string)
    requires forall i :: 0 <= i < |s| ==> s[i] as int < 256
    ensures |r| == 3 * |s|
  {
    if s == [] then []
    else ['%', HexChar(s[0] as int / 16), HexChar(s[0] as int % 16)] + PercentEncode(s[1..])
  }

  lemma {:induction false} UnquotePercentEncode(s: string)
    requires forall i :: 0 <= i < |s| ==> s[i] as int < 256
    ensures Unquote(PercentEncode(s)) == s
  {
    if s != [] {
      var e := PercentEncode(s);
      assert e[3..] == PercentEncode(s[1..]);
      UnquotePercentEncode(s[1..]);
    }
  }

  /** `s.lower().endswith('.pdf')`. */
  predicate IsPdfName(s: string) { EndsWithCI(s, ".pdf") }

  lemma PdfSuffixChars(s: string)
    requires IsPdfName(s)
    ensures s[|s| - 4] == '.'
    ensures NoPercent(s[|s| - 4..])
  {
    assert LowerChar(s[|s| - 4]) == '.';
    forall i | |s| - 4 <= i < |s| ensures s[i] != '%' {
      assert LowerChar(s[i]) in ".pdf";
    }
  }

  /** Decoding keeps a `.pdf` suffix, in any letter case. */
  lemma UnquoteKeepsPdf(s: string)
    requires IsPdfName(s)
    ensures IsPdfName(Unquote(s))
  {
    PdfSuffixChars(s);
    var p, t := s[..|s| - 4], s[|s| - 4..];
    assert s == p + t;
    UnquoteAppend(p, t);
    UnquoteWithoutPercent(t);
    var u := Unquote(s);
    assert u == Unquote(p) + t;
    assert u[|u| - 4..] == t;
  }

  /** Decoding keeps a literal (lower-case) `.pdf` suffix. */
  lemma UnquoteKeepsPdfSuffix(s: string)
    requires EndsWith(s, ".pdf")
    ensures EndsWith(Unquote(s), ".pdf")
  {
    var p, t := s[..|s| - 4], s[|s| - 4..];
    assert t == ".pdf" && s == p + t;
    UnquoteAppend(p, t);
    UnquoteWithoutPercent(t);
    var u := Unquote(s);
    assert u == Unquote(p) + t;
    assert u[|u| - 4..] == t;
  }

  lemma UnquoteNonEmpty(s: string)
    requires s != []
    ensures Unquote(s) != []
  {
  }

  // ---------------------------------------------------------------- urlsplit

  function WithoutFragment(url: string): string { url[..IndexOf(url, '#')] }

  /** The query component: what follows the first `?`, up to any fragment. */
  function Query(url: string): string {
    var u := WithoutFragment(url);
    var i := IndexOf(u, '?');
    if i == |u| then "" else u[i + 1..]
  }

  function BeforeQuery(url: string): string {
    var u := WithoutFragment(url);
    u[..IndexOf(u, '?')]
  }

  predicate IsSchemeChar(c: char) { IsAsciiLetter(c) || IsAsciiDigit(c) || c == '+' || c == '-' || c == '.' }

  /** `urlsplit` recognises a scheme: a letter, then scheme characters, up to the first `:`. */
  predicate HasScheme(u: string) {
    var i := IndexOf(u, ':');
    0 < i < |u| && IsAsciiLetter(u[0]) && (forall k :: 0 <= k < i ==> IsSchemeChar(u[k]))
  }

  /** Drops a leading `scheme:`, recognised as `urlsplit` does. */
  function AfterScheme(u: string): string {
    if HasScheme(u) then u[IndexOf(u, ':') + 1..] else u
  }

  /** The path component: after the scheme and any `//authority`, before the query. */
  function PathOf(url: string): string {
    var rest := AfterScheme(BeforeQuery(url));
    if StartsWith(rest, "//") then
      var r := rest[2..];
      r[IndexOf(r, '/')..]
    else rest
  }

  /**
   * The path `urlparse` reports: the `urlsplit` path with any `;params` cut
   * off, the parameters starting at the first `;` of the last segment.
   */
  function ParsedPath(url: string): (r: string)
    ensures |r| <= |PathOf(url)| && r == PathOf(url)[..|r|]
    ensures ';' !in Basename(r)
  {
    var p := PathOf(url);
    var k := LastIndexOf(p, '/');
    var r := p[..FirstIn(p, {';'}, if k >= 0 then k else 0)];
    assert LastIndexOf(r, '/') == k by {
      if k >= 0 {
        assert r[k] == p[k];
      }
    }
    r
  }

  // ---------------------------------------------------------------- os.path

  /** `os.path.basename`: what follows the last `/`. */
  function Basename(p: string): (r: string)
    ensures forall i :: 0 <= i < |r| ==> r[i] != '/'
  {
    var k := LastIndexOf(p, '/');
    if k < 0 then p else p[k + 1..]
  }

  /** `os.path.dirname`: up to the last `/`, trailing slashes removed unless it is all slashes. */
  function Dirname(p: string): string {
    var head := p[..LastIndexOf(p, '/') + 1];
    if head != [] && (exists i :: 0 <= i < |head| && head[i] != '/') then RStrip(head, {'/'}) else head
  }

  /** `os.path.join(a, b)`: an absolute `b` replaces `a`. */
  function Join(a: string, b: string): string {
    if StartsWith(b, "/") then b
    else if a == [] || EndsWith(a, "/") then a + b
    else a + "/" + b
  }

  predicate NoSlash(s: string) { forall i :: 0 <= i < |s| ==> s[i] != '/' }

  lemma BasenameJoin(a: string, b: string)
    requires NoSlash(b)
    ensures Basename(Join(a, b)) == b
  {
    var j := Join(a, b);
    var k := LastIndexOf(j, '/');
    assert !StartsWith(b, "/") by {
      if |b| >= 1 { assert b[..1][0] == b[0]; }
    }
    if a == [] {
      assert j == b;
    } else if EndsWith(a, "/") {
      assert a[|a| - 1..][0] == a[|a| - 1];
      assert j == a + b && j[|a| - 1] == '/';
      assert k == |a| - 1;
    } else {
      assert j == a + "/" + b && j[|a|] == '/';
      assert k == |a|;
    }
  }

  // ---------------------------------------------------------------- parse_qs

  /**
   * The fields of a query string that `parse_qs` keeps, in order: split on `&`,
   * a field without `=` or with an empty value is dropped, and the name and
   * value are percent-decoded.
   */
  function QueryFields(parts: seq<string>): seq<(string, string)> {
    if parts == [] then []
    else
      var f := parts[0];
      var eq := IndexOf(f, '=');
      var rest := QueryFields(parts[1..]);
      if eq + 1 >= |f| then rest else [(Unquote(f[..eq]), Unquote(f[eq + 1..]))] + rest
  }

  function QueryPairs(url: string): seq<(string, string)> {
    QueryFields(Split(Query(url), '&'))
  }

  /** `parse_qs(query)[name][0]`, or None when the name is absent. */
  function FirstValue(pairs: seq<(string, string)>, name: string): (r: Option<string>)
    ensures r.Some? ==>
      exists i :: 0 <= i < |pairs| && pairs[i] == (name, r.value) && forall j :: 0 <= j < i ==> pairs[j].0 != name
    ensures r.None? ==> forall i :: 0 <= i < |pairs| ==> pairs[i].0 != name
  {
    if pairs == [] then None
    else if pairs[0].0 == name then Some(pairs[0].1)
    else
      var r := FirstValue(pairs[1..], name);
      if r.Some? then
        var i :| 0 <= i < |pairs[1..]| && pairs[1..][i] == (name, r.value) &&
          forall j :: 0 <= j < i ==> pairs[1..][j].0 != name;
        assert pairs[i + 1] == (name, r.value);
        assert forall j :: 0 <= j < i + 1 ==> pairs[j].0 != name by {
          forall j | 0 <= j < i + 1 ensures pairs[j].0 != name {
            if j > 0 { assert pairs[j] == pairs[1..][j - 1]; }
          }
        }
        r
      else r
  }

  lemma {:induction false} QueryFieldValuesNonEmpty(parts: seq<string>)
    ensures forall i :: 0 <= i < |QueryFields(parts)| ==> QueryFields(parts)[i].1 != []
  {
    if parts != [] {
      QueryFieldValuesNonEmpty(parts[1..]);
      var f := parts[0];
      var eq := IndexOf(f, '=');
      if eq + 1 < |f| {
        UnquoteNonEmpty(f[eq + 1..]);
      }
    }
  }
}
