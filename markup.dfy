/**
 * `escapeHtml` and `normalizeToAbs`: the two helpers the userscript uses
 * when it writes card markup and when it resolves a details link.
 */
module Markup {

  // ---------------------------------------------------------------------------
  // escapeHtml
  // ---------------------------------------------------------------------------

  /** `s.replaceAll(c, rep)` for a one-character pattern. */
  function ReplaceAll(s: string, c: char, rep: string): string {
    if s == [] then []
    else (if s[0] == c then rep else [s[0]]) + ReplaceAll(s[1..], c, rep)
  }

  /** `escapeHtml(s)`: five `replaceAll` passes, `&` first. */
  function EscapeHtml(s: string): string {
    ReplaceAll(ReplaceAll(ReplaceAll(ReplaceAll(ReplaceAll(
      s, '&', "&amp;"), '<', "&lt;"), '>', "&gt;"), '"', "&quot;"), '\'', "&#039;")
  }

  /** The entity one character becomes, or the character itself. */
  function EscapeChar(c: char): string {
    if c == '&' then "&amp;"
    else if c == '<' then "&lt;"
    else if c == '>' then "&gt;"
    else if c == '"' then "&quot;"
    else if c == '\'' then "&#039;"
    else [c]
  }

  /** Escaping one character at a time: the reference for `EscapeHtml`. */
  function EscapeEach(s: string): string {
    if s == [] then [] else EscapeChar(s[0]) + EscapeEach(s[1..])
  }

  lemma {:induction false} ReplaceAllConcat(a: string, b: string, c: char, rep: string)
    ensures ReplaceAll(a + b, c, rep) == ReplaceAll(a, c, rep) + ReplaceAll(b, c, rep)
  {
    if a == [] {
      assert a + b == b;
    } else {
      assert (a + b)[1..] == a[1..] + b;
      ReplaceAllConcat(a[1..], b, c, rep);
    }
  }

  /** The five passes distribute over concatenation. */
  lemma EscapeHtmlConcat(a: string, b: string)
    ensures EscapeHtml(a + b) == EscapeHtml(a) + EscapeHtml(b)
  {
    var a1, b1 := ReplaceAll(a, '&', "&amp;"), ReplaceAll(b, '&', "&amp;");
    ReplaceAllConcat(a, b, '&', "&amp;");
    var a2, b2 := ReplaceAll(a1, '<', "&lt;"), ReplaceAll(b1, '<', "&lt;");
    ReplaceAllConcat(a1, b1, '<', "&lt;");
    var a3, b3 := ReplaceAll(a2, '>', "&gt;"), ReplaceAll(b2, '>', "&gt;");
    ReplaceAllConcat(a2, b2, '>', "&gt;");
    var a4, b4 := ReplaceAll(a3, '"', "&quot;"), ReplaceAll(b3, '"', "&quot;");
    ReplaceAllConcat(a3, b3, '"', "&quot;");
    ReplaceAllConcat(a4, b4, '\'', "&#039;");
  }

  lemma ReplaceAllSingle(c: char, d: char, rep: string)
    ensures ReplaceAll([c], d, rep) == if c == d then rep else [c]
  {
    assert [c][1..] == [];
  }

  lemma EscapeAmp()
    ensures EscapeHtml("&") == "&amp;"
  {
    assert ReplaceAll("&", '&', "&amp;") == "&amp;";
    assert ReplaceAll("&amp;", '<', "&lt;") == "&amp;";
    assert ReplaceAll("&amp;", '>', "&gt;") == "&amp;";
    assert ReplaceAll("&amp;", '"', "&quot;") == "&amp;";
    assert ReplaceAll("&amp;", '\'', "&#039;") == "&amp;";
  }

  lemma EscapeLt()
    ensures EscapeHtml("<") == "&lt;"
  {
    assert ReplaceAll("<", '&', "&amp;") == "<";
    assert ReplaceAll("<", '<', "&lt;") == "&lt;";
    assert ReplaceAll("&lt;", '>', "&gt;") == "&lt;";
    assert ReplaceAll("&lt;", '"', "&quot;") == "&lt;";
    assert ReplaceAll("&lt;", '\'', "&#039;") == "&lt;";
  }

  lemma EscapeGt()
    ensures EscapeHtml(">") == "&gt;"
  {
    assert ReplaceAll(">", '&', "&amp;") == ">";
    assert ReplaceAll(">", '<', "&lt;") == ">";
    assert ReplaceAll(">", '>', "&gt;") == "&gt;";
    assert ReplaceAll("&gt;", '"', "&quot;") == "&gt;";
    assert ReplaceAll("&gt;", '\'', "&#039;") == "&gt;";
  }

  lemma EscapeQuot()
    ensures EscapeHtml("\"") == "&quot;"
  {
    assert ReplaceAll("\"", '&', "&amp;") == "\"";
    assert ReplaceAll("\"", '<', "&lt;") == "\"";
    assert ReplaceAll("\"", '>', "&gt;") == "\"";
    assert ReplaceAll("\"", '"', "&quot;") == "&quot;";
    assert ReplaceAll("&quot;", '\'', "&#039;") == "&quot;";
  }

  lemma EscapeApos()
    ensures EscapeHtml("'") == "&#039;"
  {
    assert ReplaceAll("'", '&', "&amp;") == "'";
    assert ReplaceAll("'", '<', "&lt;") == "'";
    assert ReplaceAll("'", '>', "&gt;") == "'";
    assert ReplaceAll("'", '"', "&quot;") == "'";
    assert ReplaceAll("'", '\'', "&#039;") == "&#039;";
  }

  /** A later pass never touches what an earlier pass wrote. */
  lemma EscapeHtmlOne(c: char)
    ensures EscapeHtml([c]) == EscapeChar(c)
  {
    if c == '&' {
      EscapeAmp();
      assert [c] == "&";
    } else if c == '<' {
      EscapeLt();
      assert [c] == "<";
    } else if c == '>' {
      EscapeGt();
      assert [c] == ">";
    } else if c == '"' {
      EscapeQuot();
      assert [c] == "\"";
    } else if c == '\'' {
      EscapeApos();
      assert [c] == "'";
    } else {
      ReplaceAllSingle(c, '&', "&amp;");
      ReplaceAllSingle(c, '<', "&lt;");
      ReplaceAllSingle(c, '>', "&gt;");
      ReplaceAllSingle(c, '"', "&quot;");
      ReplaceAllSingle(c, '\'', "&#039;");
    }
  }

  /** Because `&` is replaced first, the five passes escape each character exactly once. */
  lemma {:induction false} EscapeHtmlCharwise(s: string)
    ensures EscapeHtml(s) == EscapeEach(s)
  {
    if s == [] {
    } else {
      assert s == [s[0]] + s[1..];
      EscapeHtmlConcat([s[0]], s[1..]);
      EscapeHtmlOne(s[0]);
      EscapeHtmlCharwise(s[1..]);
    }
  }

  /** Characters that may not appear unescaped. */
  predicate Unsafe(c: char) {
    c == '<' || c == '>' || c == '"' || c == '\''
  }

  /** One of the five entities `escapeHtml` writes starts at the front of `s`. */
  predicate StartsWithEntity(s: string) {
    "&amp;" <= s || "&lt;" <= s || "&gt;" <= s || "&quot;" <= s || "&#039;" <= s
  }

  /** No unsafe character, and every `&` begins one of the five entities. */
  predicate Escaped(s: string) {
    && (forall k :: 0 <= k < |s| ==> !Unsafe(s[k]))
    && (forall k :: 0 <= k < |s| && s[k] == '&' ==> StartsWithEntity(s[k..]))
  }

  lemma EscapedConcat(a: string, b: string)
    requires Escaped(a) && Escaped(b)
    ensures Escaped(a + b)
  {
    var s := a + b;
    forall k | 0 <= k < |s| && s[k] == '&'
      ensures StartsWithEntity(s[k..])
    {
      if k < |a| {
        assert s[k..] == a[k..] + b;
        assert StartsWithEntity(a[k..]);
      } else {
        assert s[k..] == b[k - |a|..];
      }
    }
  }

  /** A string whose only `&` is at the front, where an entity begins, and with no unsafe character. */
  lemma LeadingEntityEscaped(e: string)
    requires |e| > 0 && StartsWithEntity(e) && !Unsafe(e[0])
    requires forall k :: 1 <= k < |e| ==> e[k] != '&' && !Unsafe(e[k])
    ensures Escaped(e)
  {
    forall k | 0 <= k < |e| && e[k] == '&'
      ensures StartsWithEntity(e[k..])
    {
      assert k == 0 && e[0..] == e;
    }
  }

  lemma EscapeCharEscaped(c: char)
    ensures Escaped(EscapeChar(c))
  {
    if c == '&' {
      LeadingEntityEscaped("&amp;");
    } else if c == '<' {
      LeadingEntityEscaped("&lt;");
    } else if c == '>' {
      LeadingEntityEscaped("&gt;");
    } else if c == '"' {
      LeadingEntityEscaped("&quot;");
    } else if c == '\'' {
      LeadingEntityEscaped("&#039;");
    }
  }

  lemma {:induction false} EscapeEachEscaped(s: string)
    ensures Escaped(EscapeEach(s))
  {
    if s != [] {
      EscapeEachEscaped(s[1..]);
      EscapeCharEscaped(s[0]);
      EscapedConcat(EscapeChar(s[0]), EscapeEach(s[1..]));
    }
  }

  /**
   * The output of `escapeHtml` holds no `<`, `>`, `"` or `'`, and each `&`
   * in it begins `&amp;`, `&lt;`, `&gt;`, `&quot;` or `&#039;`.
   */
  lemma EscapeHtmlEscaped(s: string)
    ensures Escaped(EscapeHtml(s))
  {
    EscapeHtmlCharwise(s);
    EscapeEachEscaped(s);
  }

  /** Decoding of the five entities, the inverse partner of `EscapeHtml`. */
  function Unescape(s: string): string
    decreases |s|
  {
    if s == [] then []
    else if "&amp;" <= s then "&" + Unescape(s[5..])
    else if "&lt;" <= s then "<" + Unescape(s[4..])
    else if "&gt;" <= s then ">" + Unescape(s[4..])
    else if "&quot;" <= s then "\"" + Unescape(s[6..])
    else if "&#039;" <= s then "'" + Unescape(s[6..])
    else [s[0]] + Unescape(s[1..])
  }

  lemma UnescapeChar(c: char, rest: string)
    ensures Unescape(EscapeChar(c) + rest) == [c] + Unescape(rest)
  {
    var e := EscapeChar(c);
    var s := e + rest;
    assert s[|e|..] == rest;
    assert s[..|e|] == e;
    if c == '&' {
      assert "&amp;" <= s;
    } else if c == '<' {
      assert s[1] == 'l';
      assert "&lt;" <= s;
    } else if c == '>' {
      assert s[1] == 'g';
      assert "&gt;" <= s;
    } else if c == '"' {
      assert s[1] == 'q';
      assert "&quot;" <= s;
    } else if c == '\'' {
      assert s[1] == '#';
      assert "&#039;" <= s;
    } else {
      assert s[0] == c;
    }
  }

  /** Decoding the escaped text gives the original back: nothing is escaped twice. */
  lemma {:induction false} UnescapeEscapeHtml(s: string)
    ensures Unescape(EscapeHtml(s)) == s
  {
    EscapeHtmlCharwise(s);
    UnescapeEach(s);
  }

  lemma {:induction false} UnescapeEach(s: string)
    ensures Unescape(EscapeEach(s)) == s
  {
    if s != [] {
      UnescapeChar(s[0], EscapeEach(s[1..]));
      UnescapeEach(s[1..]);
      assert [s[0]] + s[1..] == s;
    }
  }

  // ---------------------------------------------------------------------------
  // normalizeToAbs
  // ---------------------------------------------------------------------------

  predicate IsAbsolute(url: string) {
    "http://" <= url || "https://" <= url
  }

  /**
   * `normalizeToAbs(url)` with `location.origin` passed in: an empty URL and
   * an absolute URL are returned as they are, a root-relative one is put
   * after the origin, and any other after the origin and a `/`.
   */
  function NormalizeToAbs(url: string, origin: string): (r: string)
    ensures url == "" ==> r == ""
    ensures IsAbsolute(url) ==> r == url
    ensures url != "" && !IsAbsolute(url) && url[0] == '/' ==> r == origin + url
    ensures url != "" && !IsAbsolute(url) && url[0] != '/' ==> r == origin + "/" + url
    ensures |url| <= |r| && r[|r| - |url|..] == url
    ensures url != "" && IsAbsolute(origin) ==> IsAbsolute(r)
  {
    if url == "" then url
    else if IsAbsolute(url) then url
    else
      var r := if url[0] == '/' then origin + url else origin + "/" + url;
      assert r[..|origin|] == origin;
      r
  }

  /** Resolving twice is resolving once, when the origin is itself absolute. */
  lemma NormalizeIdempotent(url: string, origin: string)
    requires IsAbsolute(origin)
    ensures NormalizeToAbs(NormalizeToAbs(url, origin), origin) == NormalizeToAbs(url, origin)
  {
  }
}
