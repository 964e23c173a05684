/**
 * The business website (scraper.py:194-217): the first `<a>` whose href holds
 * the redirect path, and the destination read out of its `url=` parameter by
 * two literal replacements. This is not percent-decoding: only the upper-case
 * escapes of ':' and '/' are undone.
 */
module Redirect {
  import opened Wrappers
  import opened Text
  import opened Seqs

  const RedirectMarker := "/biz_redir?url="
  const UrlParam := "url="

  /** `link.get_attribute('href') and '/biz_redir?url=' in link.get_attribute('href')` */
  predicate IsRedirect(href: Option<string>)
  {
    href.Some? && href.value != [] && Contains(href.value, RedirectMarker)
  }

  /** The first redirect href in document order, or `None`. */
  function FirstRedirect(hrefs: seq<Option<string>>): (r: Option<string>)
    ensures r.Some? <==> exists i | 0 <= i < |hrefs| :: IsRedirect(hrefs[i])
    ensures r.Some? ==> Contains(r.value, RedirectMarker)
  {
    match FirstWhere(hrefs, IsRedirect)
    case None => None
    case Some(i) => Some(hrefs[i].value)
  }

  /** `href.split('url=')[1].split('&')[0]`; `None` where the `[1]` index would raise. */
  function RawParam(href: string): (r: Option<string>)
    ensures r.Some? <==> Contains(href, UrlParam)
  {
    var parts := Split(href, UrlParam);
    if |parts| < 2 then None else Some(Split(parts[1], "&")[0])
  }

  /** `.replace('%3A', ':').replace('%2F', '/')` */
  function Unescape(s: string): string
  {
    Replace(Replace(s, "%3A", ":"), "%2F", "/")
  }

  /** The website stored for a redirect href. */
  function DecodeRedirect(href: string): (r: Option<string>)
    ensures r.Some? <==> Contains(href, UrlParam)
  {
    match RawParam(href)
    case None => None
    case Some(p) => Some(Unescape(p))
  }

  /** `info['website']`: the decoded first redirect link, `None` without one. */
  function Website(hrefs: seq<Option<string>>): (r: Option<string>)
    ensures r.Some? <==> exists i | 0 <= i < |hrefs| :: IsRedirect(hrefs[i])
  {
    match FirstRedirect(hrefs)
    case None => None
    case Some(h) =>
      RedirectHasParam(h);
      DecodeRedirect(h)
  }

  /** Every redirect href has a `url=` parameter, so the `[1]` index never raises for one. */
  lemma RedirectHasParam(h: string)
    requires Contains(h, RedirectMarker)
    ensures Contains(h, UrlParam)
  {
    var i :| 0 <= i <= |h| && OccursAt(h, RedirectMarker, i);
    assert h[i..i + |RedirectMarker|][11..] == h[i + 11..i + 15];
    assert RedirectMarker[11..] == UrlParam;
    assert OccursAt(h, UrlParam, i + 11);
  }

  /** Of several redirect hrefs, only the first in document order is used. */
  lemma WebsiteUsesFirstRedirect(hrefs: seq<Option<string>>, i: nat)
    requires i < |hrefs| && IsRedirect(hrefs[i])
    requires forall j | 0 <= j < i :: !IsRedirect(hrefs[j])
    ensures Website(hrefs) == DecodeRedirect(hrefs[i].value)
  {
    assert FirstWhere(hrefs, IsRedirect) == Some(i);
  }

  /** The parameter ends before the first '&' after `url=`. */
  lemma {:induction false} RawParamHasNoAmpersand(href: string)
    requires Contains(href, UrlParam)
    ensures '&' !in RawParam(href).value
  {
    var piece := Split(href, UrlParam)[1];
    SplitPartsAvoidSep(piece, "&");
    ContainsChar(Split(piece, "&")[0], '&');
  }

  /** Unescaping leaves no upper-case escape of ':' or '/' and adds no '&'. */
  lemma {:induction false} UnescapeResult(s: string)
    ensures !Contains(Unescape(s), "%3A") && !Contains(Unescape(s), "%2F")
    ensures '&' !in s ==> '&' !in Unescape(s)
  {
    var s1 := Replace(s, "%3A", ":");
    ReplaceEliminates(s, "%3A", ':');
    ReplaceEliminates(s1, "%2F", '/');
    ReplacePreservesAbsence(s1, "%2F", '/', "%3A");
    if '&' !in s {
      ContainsChar(s, '&');
      ReplacePreservesAbsence(s, "%3A", ':', "&");
      ReplacePreservesAbsence(s1, "%2F", '/', "&");
      ContainsChar(Unescape(s), '&');
    }
  }

  /** The stored website has no '&' and no upper-case escape of ':' or '/' left. */
  lemma DecodedWebsiteShape(href: string)
    requires Contains(href, UrlParam)
    ensures '&' !in DecodeRedirect(href).value
    ensures !Contains(DecodeRedirect(href).value, "%3A") && !Contains(DecodeRedirect(href).value, "%2F")
  {
    RawParamHasNoAmpersand(href);
    UnescapeResult(RawParam(href).value);
  }

  /** Text without either upper-case escape (lower-case `%3a`, `%2f` included) is kept verbatim. */
  lemma UnescapeVerbatim(s: string)
    requires !Contains(s, "%3A") && !Contains(s, "%2F")
    ensures Unescape(s) == s
  {
    ReplaceAbsent(s, "%3A", ":");
    ReplaceAbsent(s, "%2F", "/");
  }

  /**
   * A lower-case escape `%2f` or `%3a` is never decoded, wherever it stands:
   * the text on each side of it is unescaped on its own.
   */
  lemma UnescapeKeepsLower(x: string, e: string, y: string)
    requires e == "%2f" || e == "%3a"
    ensures Unescape(x + e + y) == Unescape(x) + e + Unescape(y)
  {
    ReplaceSplice(x, e, y, "%3A", ":");
    ReplaceSplice(Replace(x, "%3A", ":"), e, Replace(y, "%3A", ":"), "%2F", "/");
  }

  /** How the site escapes a destination: ':' as `%3A` and '/' as `%2F`. */
  function Escape(u: string): string
  {
    if u == [] then []
    else (if u[0] == ':' then "%3A" else if u[0] == '/' then "%2F" else [u[0]]) + Escape(u[1..])
  }

  lemma {:induction false} EscapeAppend(x: string, y: string)
    ensures Escape(x + y) == Escape(x) + Escape(y)
  {
    if x != [] {
      var h := if x[0] == ':' then "%3A" else if x[0] == '/' then "%2F" else [x[0]];
      assert (x + y)[0] == x[0];
      assert (x + y)[1..] == x[1..] + y;
      assert Escape(x + y) == h + Escape(x[1..] + y);
      assert Escape(x) == h + Escape(x[1..]);
      EscapeAppend(x[1..], y);
    } else {
      assert x + y == y;
    }
  }

  lemma {:induction false} EscapePlain(x: string)
    requires ':' !in x && '/' !in x
    ensures Escape(x) == x
  {
    if x != [] {
      EscapePlain(x[1..]);
      assert [x[0]] + x[1..] == x;
    }
  }

  /** Only '/' escaped: what is left after the first replacement. */
  function EscapeSlash(u: string): string
  {
    if u == [] then []
    else (if u[0] == '/' then "%2F" else [u[0]]) + EscapeSlash(u[1..])
  }

  lemma {:induction false} UndoColon(u: string)
    requires '%' !in u
    ensures Replace(Escape(u), "%3A", ":") == EscapeSlash(u)
  {
    if u != [] {
      UndoColon(u[1..]);
      var t := Escape(u[1..]);
      if u[0] == ':' {
        ReplaceHead(t, "%3A", ":");
      } else if u[0] == '/' {
        KeepEscape("%2F", t, "%3A", ":");
      } else {
        ReplaceCons(u[0], t, "%3A", ":");
      }
    }
  }

  lemma {:induction false} UndoSlash(u: string)
    requires '%' !in u
    ensures Replace(EscapeSlash(u), "%2F", "/") == u
  {
    if u != [] {
      UndoSlash(u[1..]);
      var t := EscapeSlash(u[1..]);
      if u[0] == '/' {
        ReplaceHead(t, "%2F", "/");
      } else {
        ReplaceCons(u[0], t, "%2F", "/");
      }
      assert [u[0]] + u[1..] == u;
    }
  }

  /** Unescaping undoes the site's escaping of any destination without a '%'. */
  lemma UnescapeEscape(u: string)
    requires '%' !in u
    ensures Unescape(Escape(u)) == u
  {
    UndoColon(u);
    UndoSlash(u);
  }

  /** The characters of an escaped destination are its own or those of the two escapes. */
  lemma {:induction false} EscapeChars(u: string, c: char)
    requires c !in u && c !in "%3A%2F"
    ensures c !in Escape(u)
  {
    if u != [] {
      EscapeChars(u[1..], c);
    }
  }

  /**
   * Round trip: a redirect href built from an escaped destination `u` (with no
   * '%', '&' or '=' of its own) decodes back to `u`, provided the redirect's
   * own `url=` is the first in the href.
   */
  lemma DecodeRedirectRoundTrip(prefix: string, u: string, tail: string)
    requires !Contains(prefix + "/biz_redir?", UrlParam)
    requires '%' !in u && '&' !in u && '=' !in u
    ensures DecodeRedirect(prefix + RedirectMarker + Escape(u) + "&" + tail) == Some(u)
  {
    var e := Escape(u);
    EscapeChars(u, '&');
    EscapeChars(u, '=');
    RawParamOfRedirect(prefix + "/biz_redir?", e, tail);
    SplitRedirect(prefix, e, tail);
    UnescapeEscape(u);
  }

  lemma SplitRedirect(prefix: string, e: string, tail: string)
    ensures prefix + RedirectMarker + e + "&" + tail == (prefix + "/biz_redir?") + (UrlParam + (e + "&" + tail))
  {
  }

  /** With no `url=` before the redirect's own, the raw parameter is the text up to the next '&'. */
  lemma RawParamOfRedirect(a: string, e: string, tail: string)
    requires !Contains(a, UrlParam)
    requires '&' !in e && '=' !in e
    ensures RawParam(a + (UrlParam + (e + "&" + tail))) == Some(e)
  {
    var rest := e + "&" + tail;
    FindAfterPrefix(a, rest);
    ParamSegment(e, tail);
    var w :| Split(rest, UrlParam)[0] == e + "&" + w;
    FirstAmpersand(e, w);
  }

  /** In `a + "url=" + rest` with no `url=` in `a`, the first `url=` is the one after `a`. */
  lemma FindAfterPrefix(a: string, rest: string)
    requires !Contains(a, UrlParam)
    ensures |Split(a + (UrlParam + rest), UrlParam)| >= 2
    ensures Split(a + (UrlParam + rest), UrlParam)[1] == Split(rest, UrlParam)[0]
  {
    var s := a + (UrlParam + rest);
    assert s[|a|..|a| + 4] == UrlParam;
    forall j | 0 <= j < |a|
      ensures !OccursAt(s, UrlParam, j)
    {
      if j + 4 <= |a| {
        assert s[j..j + 4] == a[j..j + 4];
        assert !OccursAt(a, UrlParam, j);
      } else {
        assert s[|a|] == 'u';
        assert s[j..j + 4][|a| - j] == s[|a|];
      }
    }
    assert OccursAt(s, UrlParam, |a|);
    FindIs(s, UrlParam, |a|);
    assert s[|a| + 4..] == rest;
  }

  /** The piece before the next `url=` starts with the escaped destination and the '&' after it. */
  lemma ParamSegment(e: string, tail: string)
    requires '&' !in e && '=' !in e
    ensures exists w :: Split(e + "&" + tail, UrlParam)[0] == e + "&" + w
  {
    var s := e + "&" + tail;
    forall j | 0 <= j <= |e|
      ensures !OccursAt(s, UrlParam, j)
    {
      if j + 4 <= |s| {
        if j + 3 < |e| {
          assert s[j..j + 4][3] == s[j + 3] == e[j + 3];
        } else if j + 3 == |e| {
          assert s[j..j + 4][3] == s[|e|] == '&';
        } else {
          assert s[j..j + 4][|e| - j] == s[|e|] == '&';
        }
      }
    }
    match Find(s, UrlParam)
    case None =>
      assert Split(s, UrlParam)[0] == e + "&" + tail;
    case Some(k) =>
      assert s[..k] == e + "&" + s[|e| + 1..k];
  }

  /** The first '&' of `e + "&" + w`, for `e` without one, ends `e`. */
  lemma FirstAmpersand(e: string, w: string)
    requires '&' !in e
    ensures Split(e + "&" + w, "&")[0] == e
  {
    var s := e + "&" + w;
    forall j | 0 <= j < |e|
      ensures !OccursAt(s, "&", j)
    {
      assert s[j..j + 1][0] == e[j];
    }
    assert s[|e|..|e| + 1] == "&";
    assert OccursAt(s, "&", |e|);
    FindIs(s, "&", |e|);
    assert s[..|e|] == e;
  }

  lemma EscapeCons(c: char, y: string)
    ensures Escape([c] + y) == (if c == ':' then "%3A" else if c == '/' then "%2F" else [c]) + Escape(y)
  {
    assert ([c] + y)[1..] == y;
  }

  /** A destination `scheme://host` escapes to `scheme%3A%2F%2Fhost`. */
  lemma EscapeSchemeHost(a: string, b: string)
    requires ':' !in a && '/' !in a && ':' !in b && '/' !in b
    ensures Escape(a + ([':'] + (['/'] + (['/'] + b)))) == a + ("%3A" + ("%2F" + ("%2F" + b)))
  {
    EscapeAppend(a, [':'] + (['/'] + (['/'] + b)));
    EscapeCons(':', ['/'] + (['/'] + b));
    EscapeCons('/', ['/'] + b);
    EscapeCons('/', b);
    EscapePlain(a);
    EscapePlain(b);
  }

  /** The redirect path before its `url=` holds no `url=` of its own. */
  lemma RedirectPathHasNoParam()
    ensures !Contains("/biz_redir?", UrlParam)
  {
    NotContainsWithoutHead("/biz_redir?", UrlParam);
  }

  /** Text with none of the characters the escaping and the parameter parsing treat specially. */
  predicate Plain(x: string)
  {
    ':' !in x && '/' !in x && '%' !in x && '&' !in x && '=' !in x
  }

  /** A redirect to `scheme%3A%2F%2Fhost` decodes to `scheme://host`. */
  lemma DecodeSchemeHost(scheme: string, host: string, tail: string)
    requires Plain(scheme) && Plain(host)
    ensures DecodeRedirect(RedirectMarker + scheme + "%3A%2F%2F" + host + "&" + tail) == Some(scheme + "://" + host)
  {
    var u := scheme + ([':'] + (['/'] + (['/'] + host)));
    EscapeSchemeHost(scheme, host);
    assert u == scheme + "://" + host;
    assert Escape(u) == scheme + "%3A%2F%2F" + host;
    assert '%' !in u && '&' !in u && '=' !in u;
    RedirectPathHasNoParam();
    assert "" + "/biz_redir?" == "/biz_redir?";
    DecodeRedirectRoundTrip("", u, tail);
    SameHref(RedirectMarker, Escape(u), scheme, "%3A%2F%2F", host, "&", tail);
  }

  /** `scheme%3A%2F%2Fhost` unescapes to `scheme://host`. */
  lemma UnescapeSchemeHost(scheme: string, host: string)
    requires Plain(scheme) && Plain(host)
    ensures Unescape(scheme + "%3A%2F%2F" + host) == scheme + "://" + host
  {
    var u := scheme + ([':'] + (['/'] + (['/'] + host)));
    EscapeSchemeHost(scheme, host);
    assert u == scheme + "://" + host;
    assert Escape(u) == scheme + "%3A%2F%2F" + host;
    assert '%' !in u;
    UnescapeEscape(u);
  }

  /**
   * Mixed text: `https%3A%2F%2Fx.com%2fa` unescapes to `https://x.com%2fa`,
   * the upper-case escapes decoded and the lower-case `%2f` kept. The literals
   * are parameters fixed by `requires` because Dafny unfolds a recursive
   * function applied to a literal string without bound, and `Unescape` of the
   * whole literal exceeds the verifier's resource limit.
   */
  lemma UnescapeMixedExample(scheme: string, host: string, rest: string)
    requires scheme == "https" && host == "x.com" && rest == "a"
    ensures Unescape(scheme + "%3A%2F%2F" + host + "%2f" + rest) == scheme + "://" + host + "%2f" + rest
  {
    assert Plain(scheme) && Plain(host);
    UnescapeSchemeHost(scheme, host);
    ReplaceShort(rest, "%3A", ":");
    ReplaceShort(rest, "%2F", "/");
    UnescapeKeepsLower(scheme + "%3A%2F%2F" + host, "%2f", rest);
  }

  /**
   * `/biz_redir?url=https%3A%2F%2Fexample.com&cta=1` decodes to
   * `https://example.com`. As in `UnescapeMixedExample`, the literals are
   * parameters fixed by `requires` to keep the proof within the resource limit.
   */
  lemma DecodeRedirectExample(scheme: string, host: string, tail: string)
    requires scheme == "https" && host == "example.com" && tail == "cta=1"
    ensures DecodeRedirect(RedirectMarker + scheme + "%3A%2F%2F" + host + "&" + tail) == Some(scheme + "://" + host)
  {
    assert Plain(scheme) && Plain(host);
    DecodeSchemeHost(scheme, host, tail);
  }

  /**
   * Regroups the href `DecodeRedirectRoundTrip` speaks of into the shape the
   * examples state. Written as an inline `assert`, this concatenation of
   * literals can exceed the verifier's resource limit; over plain parameters it
   * is cheap.
   */
  lemma SameHref(m: string, e: string, a: string, lit: string, b: string, amp: string, tail: string)
    requires e == a + lit + b
    ensures "" + m + e + amp + tail == m + a + lit + b + amp + tail
  {
    assert "" + m == m;
  }
}
