/**
 * Page templating of the build script (internal/scripts/build.mjs): the chain of
 * substitutions an HTML page goes through for one output target, and the
 * Markdown path: front-matter stripping, the choice of one of three page
 * shells by path prefix, the shell's assembly around the rendered body, the
 * output name, and the per-target `{{ROOT}}`/`{{version}}` substitution.
 */
module Templates {
  import opened Options
  import opened Text
  import opened Paths
  import opened Locales
  import opened I18n

  // --------------------------------------------------------- the lang tag

  /** ASCII lower-casing: the case folding of a non-Unicode `/i` expression on these characters. */
  function Lower(c: char): char
  {
    if 'A' <= c <= 'Z' then (c as int + 32) as char else c
  }

  const LangOpen: string := "<html lang=\""

  /**
   * `s[k..k + n]` matches `/<html lang="[^"]+">/i`: the opening in any case, at
   * least one character other than a double quote, then `">`.
   */
  predicate LangTagAt(s: string, k: nat, n: nat)
  {
    k + n <= |s| && |LangOpen| + 3 <= n
    && (forall j | 0 <= j < |LangOpen| :: Lower(s[k + j]) == LangOpen[j])
    && (forall j | k + |LangOpen| <= j < k + n - 2 :: s[j] != '"')
    && s[k + n - 2] == '"' && s[k + n - 1] == '>'
  }

  /** The first double quote at or after index `i`. */
  function FirstQuote(s: string, i: nat): (r: Option<nat>)
    decreases |s| - i
    ensures r.Some? ==> i <= r.value < |s| && s[r.value] == '"'
    ensures r.Some? ==> forall j | i <= j < r.value :: s[j] != '"'
    ensures r.None? ==> forall j | i <= j < |s| :: s[j] != '"'
  {
    if i >= |s| then None
    else if s[i] == '"' then Some(i)
    else FirstQuote(s, i + 1)
  }

  /** The expression tried at index `k`: the greedy `[^"]+` stops at the first quote, which must precede `>`. */
  function LangMatchAt(s: string, k: nat): (r: Option<nat>)
    ensures r.Some? ==> LangTagAt(s, k, r.value)
    ensures r.None? ==> forall n :: !LangTagAt(s, k, n)
  {
    var o := k + |LangOpen|;
    if o <= |s| && (forall j | 0 <= j < |LangOpen| :: Lower(s[k + j]) == LangOpen[j]) then
      match FirstQuote(s, o)
      case Some(q) =>
        if q > o && q + 1 < |s| && s[q + 1] == '>' then Some(q + 2 - k)
        else
          assert forall n :: !LangTagAt(s, k, n) by {
            forall n ensures !LangTagAt(s, k, n) {
              if k + n - 2 > q {
                assert s[q] == '"';
              } else if k + n - 2 < q && k + n - 2 >= o {
                assert s[k + n - 2] != '"';
              }
            }
          }
          None
      case None =>
        assert forall n :: !LangTagAt(s, k, n) by {
          forall n ensures !LangTagAt(s, k, n) {
            if o <= k + n - 2 < |s| {
              assert s[k + n - 2] != '"';
            }
          }
        }
        None
    else
      None
  }

  datatype Span = Span(start: nat, len: nat)

  /** The leftmost match at or after index `i`. */
  function FindLangFrom(s: string, i: nat): (r: Option<Span>)
    requires i <= |s|
    decreases |s| - i
    ensures r.Some? ==> i <= r.value.start && LangMatchAt(s, r.value.start) == Some(r.value.len)
    ensures r.Some? ==> forall k | i <= k < r.value.start :: LangMatchAt(s, k).None?
    ensures r.None? ==> forall k | i <= k <= |s| :: LangMatchAt(s, k).None?
  {
    match LangMatchAt(s, i)
    case Some(n) => Some(Span(i, n))
    case None =>
      if i == |s| then None
      else
        var r := FindLangFrom(s, i + 1);
        NoMatchExtends(s, i, if r.Some? then r.value.start else |s| + 1);
        r
  }

  /** No match at `i` and none from `i + 1` to `e` make none from `i` to `e`. */
  lemma NoMatchExtends(s: string, i: nat, e: nat)
    requires LangMatchAt(s, i).None?
    requires forall k | i + 1 <= k < e :: LangMatchAt(s, k).None?
    ensures forall k | i <= k < e :: LangMatchAt(s, k).None?
  {
  }

  function FindLang(s: string): Option<Span>
  {
    FindLangFrom(s, 0)
  }

  /** The tag written for a locale. */
  function LangTag(l: Locale): string
  {
    LangOpen + l.Code() + "\">"
  }

  /** `.replace(/<html lang="[^"]+">/i, ...)`: only the leftmost tag is rewritten. */
  function ReplaceLang(s: string, l: Locale): (r: string)
    ensures FindLang(s).None? ==> r == s
    ensures FindLang(s).Some? ==>
      var sp := FindLang(s).value;
      |r| == |s| - sp.len + |LangTag(l)| && r[..sp.start] == s[..sp.start]
      && OccursAt(r, LangTag(l), sp.start) && r[sp.start + |LangTag(l)|..] == s[sp.start + sp.len..]
  {
    match FindLang(s)
    case None => s
    case Some(sp) => s[..sp.start] + LangTag(l) + s[sp.start + sp.len..]
  }

  /** After the rewrite, the leftmost tag of the page is the new one, at the old one's place. */
  lemma LangRewrittenFirst(s: string, l: Locale)
    requires FindLang(s).Some?
    ensures FindLang(ReplaceLang(s, l)) == Some(Span(FindLang(s).value.start, |LangTag(l)|))
  {
    var sp := FindLang(s).value;
    var k := sp.start;
    SplicedTagFound(s, s[..k], LangTag(l), s[k + sp.len..], l);
  }

  /** A tag written where no match precedes it is the leftmost match of the result. */
  lemma SplicedTagFound(s: string, a: string, t: string, b: string, l: Locale)
    requires t == LangTag(l) && |a| <= |s| && a == s[..|a|]
    requires forall k' | 0 <= k' < |a| :: LangMatchAt(s, k').None?
    ensures FindLang(a + t + b) == Some(Span(|a|, |t|))
  {
    var r := a + t + b;
    var k := |a|;
    Spliced(a, t, b);
    NewTagAt(a, t, b, l);
    NoTagBefore(s, k, r, t, l);
    LangMatchUnique(r, k, |t|);
    LeftmostIsFound(r, 0, k, |t|);
  }

  /** The pieces of a splice are where they were put. */
  lemma Spliced(a: string, t: string, b: string)
    ensures (a + t + b)[..|a|] == a && (a + t + b)[|a|..|a| + |t|] == t
  {
  }

  /** Writing the tag at the leftmost match creates no match before it. */
  lemma NoTagBefore(s: string, k: nat, r: string, t: string, l: Locale)
    requires k <= |s| && t == LangTag(l) && k + |t| <= |r| && r[..k] == s[..k] && r[k..k + |t|] == t
    requires forall k' | 0 <= k' < k :: LangMatchAt(s, k').None?
    ensures forall k' | 0 <= k' < k :: LangMatchAt(r, k').None?
  {
    forall k': nat | k' < k
      ensures LangMatchAt(r, k').None?
    {
      if LangMatchAt(r, k').Some? {
        NoEarlierTag(s, k, r, t, l, k', LangMatchAt(r, k').value);
      }
    }
  }

  /** The rewritten tag is a match at its place. */
  lemma NewTagAt(a: string, t: string, b: string, l: Locale)
    requires t == LangTag(l)
    ensures LangTagAt(a + t + b, |a|, |t|)
  {
    var r := a + t + b;
    assert forall j | 0 <= j < |t| :: r[|a| + j] == t[j];
    assert forall j | 0 <= j < |LangOpen| :: t[j] == LangOpen[j];
  }

  /**
   * No match starts before the rewritten tag: it would have to end inside the
   * new tag, which has no `>` before its end and a quote at its opening, or
   * lie wholly in the unchanged prefix, where the original had none.
   */
  lemma NoEarlierTag(s: string, k: nat, r: string, t: string, l: Locale, k': nat, n': nat)
    requires LangMatchAt(s, k').None?
    requires k <= |s| && t == LangTag(l) && k + |t| <= |r| && r[..k] == s[..k] && r[k..k + |t|] == t
    requires k' < k
    ensures !LangTagAt(r, k', n')
  {
    var e := k' + n' - 1;
    TagChars(l);
    if n' < |LangOpen| + 3 || k' + n' > |r| {
    } else if e - 1 > k + 11 {
      assert r[k + 11] == t[11];
      QuoteInside(r, k', n', k + 11);
    } else if e >= k {
      assert r[e] == t[e - k];
      NotClosed(r, k', n');
    } else {
      PrefixTag(s, r, k', n', k);
    }
  }

  /** The written tag has its quote at 11 and no `>` before its last character. */
  lemma TagChars(l: Locale)
    ensures var t := LangTag(l);
      |t| == 16 && t[11] == '"' && forall j | 0 <= j <= 12 :: t[j] != '>'
  {
  }

  /** A quote inside the attribute value rules out a match. */
  lemma QuoteInside(r: string, k: nat, n: nat, q: nat)
    requires k + |LangOpen| <= q < k + n - 2 && q < |r| && r[q] == '"'
    ensures !LangTagAt(r, k, n)
  {
  }

  /** A match ends with `>`. */
  lemma NotClosed(r: string, k: nat, n: nat)
    requires 0 < k + n <= |r| && r[k + n - 1] != '>'
    ensures !LangTagAt(r, k, n)
  {
  }

  /** Whether a match lies in a prefix depends on that prefix only. */
  lemma PrefixTag(s: string, r: string, k': nat, n': nat, k: nat)
    requires k' + n' <= k <= |s| && k <= |r| && r[..k] == s[..k]
    ensures LangTagAt(r, k', n') == LangTagAt(s, k', n')
  {
    assert forall j | 0 <= j < k :: r[j] == s[j] by {
      forall j | 0 <= j < k ensures r[j] == s[j] {
        assert r[..k][j] == s[..k][j];
      }
    }
  }

  /** A tag at `k` with none before it (from `i` on) is what the search returns. */
  lemma LeftmostIsFound(s: string, i: nat, k: nat, n: nat)
    requires i <= k <= |s| && LangMatchAt(s, k) == Some(n)
    requires forall k' | i <= k' < k :: LangMatchAt(s, k').None?
    ensures FindLangFrom(s, i) == Some(Span(k, n))
  {
    var r := FindLangFrom(s, i);
    assert r.Some? && r.value.start == k;
  }

  /** At a given index the expression has at most one match. */
  lemma LangMatchUnique(s: string, k: nat, n: nat)
    requires LangTagAt(s, k, n)
    ensures LangMatchAt(s, k) == Some(n)
  {
    var m := LangMatchAt(s, k).value;
    assert LangTagAt(s, k, m);
  }

  /** Rewriting the tag twice is rewriting it once, with the last locale. */
  lemma LangLastRewriteWins(s: string, first: Locale, second: Locale)
    ensures ReplaceLang(ReplaceLang(s, first), second) == ReplaceLang(s, second)
  {
    if FindLang(s).Some? {
      var sp := FindLang(s).value;
      LangRewrittenFirst(s, first);
      var r := ReplaceLang(s, first);
      assert r[..sp.start] == s[..sp.start];
      assert r[sp.start + |LangTag(first)|..] == s[sp.start + sp.len..];
    }
  }

  // ----------------------------------------------------- the HTML chain

  const HeaderMarker: string := "<!-- {{header}} -->"
  const FooterMarker: string := "<!-- {{footer}} -->"
  const RootToken: string := "{{root}}"
  const VersionToken: string := "{{version}}"
  const CanonicalToken: string := "{{canonical}}"

  /** The canonical address written into a page rendered for locale `l`. */
  function CanonicalUrl(l: Locale): (r: string)
    ensures '{' !in r && '}' !in r && '$' !in r && |r| >= |CanonicalToken|
  {
    if l == Fr then "https://akios.ai/fr/" else "https://akios.ai/"
  }

  /** Steps 1 to 5 of the chain: lang tag, header and footer partials, root prefix, version. */
  function Substitute(raw: string, l: Locale, header: string, footer: string, root: string, version: string): string
  {
    var withLang := ReplaceLang(raw, l);
    var withHeader := ReplaceFirst(withLang, HeaderMarker, header);
    var withFooter := ReplaceFirst(withHeader, FooterMarker, footer);
    var withRoot := ReplaceAll(withFooter, RootToken, root);
    ReplaceAll(withRoot, VersionToken, version)
  }

  /**
   * The whole chain for one target: on the fan-out branch `canonical` carries the
   * address that replaces `{{canonical}}`; the generic branch passes `None`.
   */
  function RenderHtml(raw: string, l: Locale, header: string, footer: string, root: string,
                      version: string, canonical: Option<string>, table: map<string, Value>): string
  {
    Inject(Prepared(raw, l, header, footer, root, version, canonical), table)
  }

  /** The text handed to the string injection: steps 1 to 5, then the canonical address if there is one. */
  function Prepared(raw: string, l: Locale, header: string, footer: string, root: string,
                    version: string, canonical: Option<string>): string
  {
    var substituted := Substitute(raw, l, header, footer, root, version);
    if canonical.Some? then ReplaceAll(substituted, CanonicalToken, canonical.value) else substituted
  }

  /** A version string of digits and dots, as `version.json` normally holds. */
  predicate PlainVersion(version: string)
  {
    |version| > 0 && forall i | 0 <= i < |version| :: '0' <= version[i] <= '9' || version[i] == '.'
  }

  /** A token spelled without dots, slashes and digits: the characters of root prefixes and versions. */
  predicate Braced(token: string)
  {
    |token| > 0 && forall i | 0 <= i < |token| :: token[i] != '.' && token[i] != '/' && !('0' <= token[i] <= '9')
  }

  lemma TokensBraced()
    ensures Braced(RootToken) && Braced(RootMarker) && Braced(VersionToken)
  {
  }

  /** The alphabet of a root replacement shares nothing with the tokens. */
  lemma RootAvoidsTokens(target: string, token: string)
    requires Braced(token)
    ensures |RootReplacement(target)| > 0 && '$' !in RootReplacement(target)
    ensures NoCommonChar(RootReplacement(target), token)
  {
    RootReplacementAlphabet(target);
    var root := RootReplacement(target);
    forall c | c in root ensures c !in token {
      var i :| 0 <= i < |root| && root[i] == c;
      assert c in "./";
    }
  }

  /** Digits and dots share nothing with a token of letters and braces. */
  lemma PlainVersionAvoids(version: string, token: string)
    requires PlainVersion(version) && Braced(token)
    ensures '$' !in version && NoCommonChar(version, token)
  {
  }

  /**
   * Replacing every `marker` by a root prefix and then every `{{version}}` by a
   * plain version leaves neither token behind.
   */
  lemma RootAndVersionGone(s: string, marker: string, root: string, version: string)
    requires Braced(marker) && Braced(VersionToken) && PlainVersion(version)
    requires |root| > 0 && '$' !in root && NoCommonChar(root, marker)
    ensures var w := ReplaceAll(ReplaceAll(s, marker, root), VersionToken, version);
      !Occurs(w, marker) && !Occurs(w, VersionToken)
  {
    var withRoot := ReplaceAll(s, marker, root);
    ReplaceAllAvoids(s, marker, root, marker);
    PlainVersionAvoids(version, marker);
    PlainVersionAvoids(version, VersionToken);
    ReplaceAllAvoids(withRoot, VersionToken, version, marker);
    ReplaceAllAvoids(withRoot, VersionToken, version, VersionToken);
  }

  /** Before the final injection, no `{{root}}` or `{{version}}` is left in an HTML page. */
  lemma SubstituteResolvesTokens(raw: string, l: Locale, header: string, footer: string, target: string, version: string)
    requires PlainVersion(version)
    ensures var s := Substitute(raw, l, header, footer, RootReplacement(target), version);
      !Occurs(s, RootToken) && !Occurs(s, VersionToken)
  {
    var withFooter := ReplaceFirst(ReplaceFirst(ReplaceLang(raw, l), HeaderMarker, header), FooterMarker, footer);
    TokensBraced();
    RootAvoidsTokens(target, RootToken);
    RootAndVersionGone(withFooter, RootToken, RootReplacement(target), version);
  }

  /** Text without `<` holds no lang tag. */
  lemma NoLangWithoutAngle(s: string)
    requires '<' !in s
    ensures FindLang(s).None?
  {
    forall k: nat, n: nat
      ensures !LangTagAt(s, k, n)
    {
      if k + n <= |s| && |LangOpen| + 3 <= n {
        assert s[k] in s;
        assert Lower(s[k]) != '<' == LangOpen[0];
      }
    }
  }

  /**
   * `{{canonical}}` is filled in on the fan-out branch only. On the generic branch
   * (`None`) every occurrence of the token in the source survives rendering, as
   * long as the lang tag the chain rewrites does not run through it. With the
   * locale's address, no token is left in the text handed to the injection, and
   * the address stands where the token stood.
   */
  lemma CanonicalOnlyOnFanOut(raw: string, k: nat, l: Locale, header: string, footer: string, root: string,
                              version: string, table: map<string, Value>)
    requires OccursAt(raw, CanonicalToken, k) && LangTagClear(raw, k, |CanonicalToken|)
    requires '$' !in root && '$' !in version
    ensures Occurs(RenderHtml(raw, l, header, footer, root, version, None, table), CanonicalToken)
    ensures var w := Prepared(raw, l, header, footer, root, version, Some(CanonicalUrl(l)));
      !Occurs(w, CanonicalToken) && Occurs(w, CanonicalUrl(l))
  {
    var s := Substitute(raw, l, header, footer, root, version);
    var k' := SubstituteKeepsCanonical(raw, k, l, header, footer, root, version);
    CanonicalTokenLiteral();
    InjectKeepsLiteral(s, CanonicalToken, k', table);
    CanonicalFilled(raw, l, header, footer, root, version);
    CanonicalTokenApart();
    ReplaceAllPlaces(s, CanonicalToken, CanonicalUrl(l), k');
  }

  /** With the locale's address, no `{{canonical}}` is left in the text handed to the injection, whatever the page. */
  lemma CanonicalFilled(raw: string, l: Locale, header: string, footer: string, root: string, version: string)
    ensures !Occurs(Prepared(raw, l, header, footer, root, version, Some(CanonicalUrl(l))), CanonicalToken)
  {
    var url := CanonicalUrl(l);
    assert CanonicalToken[0] == '{' && CanonicalToken[|CanonicalToken| - 1] == '}';
    ReplaceAllRemoves(Substitute(raw, l, header, footer, root, version), CanonicalToken, url);
  }

  /** The lang tag the chain rewrites, if any, lies clear of the `n` characters from `k`. */
  predicate LangTagClear(raw: string, k: nat, n: nat)
  {
    match FindLang(raw)
    case None => true
    case Some(sp) => sp.start + sp.len <= k || k + n <= sp.start
  }

  /**
   * Steps 1 to 5 keep every `{{canonical}}` of the page that the lang tag does
   * not run through, given `$`-free root and version; the result is where it
   * is found afterwards.
   */
  lemma SubstituteKeepsCanonical(raw: string, k: nat, l: Locale, header: string, footer: string,
                                 root: string, version: string) returns (k': nat)
    requires OccursAt(raw, CanonicalToken, k) && LangTagClear(raw, k, |CanonicalToken|)
    requires '$' !in root && '$' !in version
    ensures OccursAt(Substitute(raw, l, header, footer, root, version), CanonicalToken, k')
  {
    var c := CanonicalToken;
    var withLang := ReplaceLang(raw, l);
    var withHeader := ReplaceFirst(withLang, HeaderMarker, header);
    var withFooter := ReplaceFirst(withHeader, FooterMarker, footer);
    var withRoot := ReplaceAll(withFooter, RootToken, root);
    MarkersApart();
    TokensApart();
    var k1 := LangKeeps(raw, l, c, k);
    ReplaceFirstKeeps(withLang, HeaderMarker, header, c, k1);
    var k2: nat :| OccursAt(withHeader, c, k2);
    ReplaceFirstKeeps(withHeader, FooterMarker, footer, c, k2);
    var k3: nat :| OccursAt(withFooter, c, k3);
    ReplaceAllKeeps(withFooter, RootToken, root, c, k3);
    var k4 := |ReplaceAll(withFooter[..k3], RootToken, root)|;
    ReplaceAllKeeps(withRoot, VersionToken, version, c, k4);
    k' := |ReplaceAll(withRoot[..k4], VersionToken, version)|;
  }

  /** Rewriting the lang tag keeps an occurrence of `q` that the tag does not run through. */
  lemma LangKeeps(raw: string, l: Locale, q: string, k: nat) returns (k': nat)
    requires OccursAt(raw, q, k) && LangTagClear(raw, k, |q|)
    ensures OccursAt(ReplaceLang(raw, l), q, k')
  {
    match FindLang(raw)
    case None =>
      k' := k;
    case Some(sp) =>
      k' := SpliceKeeps(raw, sp.start, sp.start + sp.len, LangTag(l), q, k);
  }

  /** Replacing the text from `st` to `e` keeps an occurrence of `q` lying wholly outside it. */
  lemma SpliceKeeps(s: string, st: nat, e: nat, t: string, q: string, k: nat) returns (k': nat)
    requires st <= e <= |s| && OccursAt(s, q, k) && (e <= k || k + |q| <= st)
    ensures OccursAt(s[..st] + t + s[e..], q, k')
  {
    var out := s[..st] + t + s[e..];
    if e <= k {
      k' := k - e + st + |t|;
      assert out[k'..k' + |q|] == s[e..][k - e..k - e + |q|];
      assert s[e..][k - e..k - e + |q|] == s[k..k + |q|];
    } else {
      k' := k;
      assert out[k..k + |q|] == s[..st][k..k + |q|];
    }
  }

  /** The markers replaced in steps 2 and 3 can neither overlap nor nest with `{{canonical}}`. */
  lemma MarkersApart()
    ensures Apart(HeaderMarker, CanonicalToken) && Apart(FooterMarker, CanonicalToken)
  {
    var c := CanonicalToken;
    assert 'c' in c && '<' in HeaderMarker && '<' in FooterMarker;
    MissingCharNoOccurrence(HeaderMarker, c, 'c');
    MissingCharNoOccurrence(FooterMarker, c, 'c');
    MissingCharNoOccurrence(c, HeaderMarker, '<');
    MissingCharNoOccurrence(c, FooterMarker, '<');
    MarkerNoOverlap(HeaderMarker);
    MarkerNoOverlap(FooterMarker);
  }

  /** A marker `<!-- {{x}} -->` with `x` not starting with `c` neither runs into nor follows into `{{canonical}}`. */
  lemma MarkerNoOverlap(m: string)
    requires m == HeaderMarker || m == FooterMarker
    ensures NoOverlap(m, CanonicalToken) && NoOverlap(CanonicalToken, m)
  {
    var c := CanonicalToken;
    forall d | 0 < d < |c|
      ensures !StartsWith(m, c[d..])
    {
      assert c[d..][0] != m[0];
    }
    forall d | 0 < d < |m|
      ensures !StartsWith(c, m[d..])
    {
      if d == 5 {
        assert m[d..][2] != c[2];
      } else if d == 6 {
        assert m[d..][1] != c[1];
      } else {
        assert m[d..][0] != c[0];
      }
    }
  }

  /** `{{root}}` and `{{version}}` can neither overlap nor nest with `{{canonical}}`, nor it with itself. */
  lemma TokensApart()
    ensures Apart(RootToken, CanonicalToken) && Apart(VersionToken, CanonicalToken)
  {
    var c := CanonicalToken;
    assert 'c' in c && 'r' in RootToken && 'v' in VersionToken;
    MissingCharNoOccurrence(RootToken, c, 'c');
    MissingCharNoOccurrence(VersionToken, c, 'c');
    MissingCharNoOccurrence(c, RootToken, 'r');
    MissingCharNoOccurrence(c, VersionToken, 'v');
    CanonicalTokenApart();
    forall d | 0 < d < |RootToken|
      ensures !StartsWith(c, RootToken[d..])
    {
      if d == 1 {
        assert RootToken[d..][1] != c[1];
      } else {
        assert RootToken[d..][0] != c[0];
      }
    }
    forall d | 0 < d < |VersionToken|
      ensures !StartsWith(c, VersionToken[d..])
    {
      if d == 1 {
        assert VersionToken[d..][1] != c[1];
      } else {
        assert VersionToken[d..][0] != c[0];
      }
    }
  }

  /**
   * A proper suffix of `{{canonical}}` that starts with a brace is `{canonical}}`,
   * which begins no token of this chain: the token cannot run into itself, into
   * `{{root}}` or into `{{version}}`.
   */
  lemma CanonicalTokenApart()
    ensures NoOverlap(CanonicalToken, CanonicalToken)
    ensures NoOverlap(CanonicalToken, RootToken) && NoOverlap(CanonicalToken, VersionToken)
  {
    var c := CanonicalToken;
    forall d | 0 < d < |c|
      ensures !StartsWith(c, c[d..]) && !StartsWith(RootToken, c[d..]) && !StartsWith(VersionToken, c[d..])
    {
      if d == 1 {
        assert c[d..][1] != c[1];
      } else {
        assert c[d..][0] != c[0];
      }
    }
  }

  /** `{{canonical}}` is literal text for the injection: no `{{i18n.` starts in it or completes after it. */
  lemma CanonicalTokenLiteral()
    ensures Literal(CanonicalToken) && CanonicalToken[0] == '{' && CanonicalToken[1] != 'i'
  {
    var c := CanonicalToken;
    forall j | 0 <= j < |c|
      ensures !StartsWith(c[j..], Open)
    {
      if j == 0 {
        assert c[j..][2] != Open[2];
      } else if j == 1 {
        assert |c[j..]| > 1 && c[j..][1] != Open[1];
      } else {
        assert c[j..][0] != Open[0];
      }
    }
    forall m | 0 < m < |Open|
      ensures !EndsWith(c, Open[..m])
    {
      assert Open[..m][m - 1] != c[|c| - 1];
    }
  }

  /** Text without `<`, `{{root}}` and `{{version}}` goes through steps 1 to 5 unchanged. */
  lemma SubstituteKeeps(c: string, l: Locale, header: string, footer: string, root: string, version: string)
    requires '<' !in c && !Occurs(c, RootToken) && !Occurs(c, VersionToken)
    ensures Substitute(c, l, header, footer, root, version) == c
  {
    NoLangWithoutAngle(c);
    assert ReplaceLang(c, l) == c;
    MarkerAbsent(c, HeaderMarker, header);
    MarkerAbsent(c, FooterMarker, footer);
    ReplaceAllAbsent(c, RootToken, root, 0);
    ReplaceAllAbsent(c, VersionToken, version, 0);
  }

  /** A marker holding `<` is not found in text without one, so nothing is replaced. */
  lemma MarkerAbsent(s: string, marker: string, rep: string)
    requires '<' !in s && |marker| > 0 && marker[0] == '<'
    ensures ReplaceFirst(s, marker, rep) == s
  {
    assert marker[0] in marker;
    MissingCharNoOccurrence(s, marker, '<');
    assert IndexOf(s, marker).None?;
  }

  // ------------------------------------------------------- front matter

  const Fence: string := "---"

  /** The first fence after the opening one, if any, starts at `e`. */
  predicate ClosingFenceAt(raw: string, e: nat)
  {
    3 <= e && OccursAt(raw, Fence, e) && forall j | 3 <= j < e :: !OccursAt(raw, Fence, j)
  }

  /** There is only one first closing fence. */
  lemma ClosingFenceUnique(raw: string, e: nat, e': nat)
    requires ClosingFenceAt(raw, e) && ClosingFenceAt(raw, e')
    ensures e == e'
  {
    assert e < e' ==> !OccursAt(raw, Fence, e);
    assert e' < e ==> !OccursAt(raw, Fence, e');
  }

  /**
   * Front-matter stripping: text that opens with `---` and holds another `---`
   * at index 3 or later loses everything up to the end of that second fence,
   * and the rest is trimmed; any other text is kept as it is, untrimmed.
   */
  function StripFrontMatter(raw: string): string
  {
    if StartsWith(raw, Fence) then
      match IndexOfFrom(raw, Fence, 3)
      case Some(e) => Trim(raw[e + 3..])
      case None => raw
    else raw
  }

  /** Text that does not open with a fence, or has no closing fence, is kept as it is. */
  lemma NoFrontMatterKept(raw: string)
    requires !StartsWith(raw, Fence) || forall e | 3 <= e :: !OccursAt(raw, Fence, e)
    ensures StripFrontMatter(raw) == raw
  {
  }

  /** With a closing fence, the text after the first one is kept, trimmed. */
  lemma FrontMatterCut(raw: string, e: nat)
    requires StartsWith(raw, Fence) && ClosingFenceAt(raw, e)
    ensures StripFrontMatter(raw) == Trim(raw[e + 3..])
  {
    var found := IndexOfFrom(raw, Fence, 3);
    assert found.Some?;
    ClosingFenceUnique(raw, found.value, e);
  }

  /** A front-matter block without dashes is removed, and the body after it is trimmed. */
  lemma FrontMatterRemoved(meta: string, body: string)
    requires '-' !in meta
    ensures StripFrontMatter(Fence + meta + Fence + body) == Trim(body)
  {
    var raw := Fence + meta + Fence + body;
    var e := 3 + |meta|;
    assert OccursAt(raw, Fence, e);
    assert ClosingFenceAt(raw, e) by {
      forall j | 3 <= j < e
        ensures !OccursAt(raw, Fence, j)
      {
        assert raw[j] == meta[j - 3];
        assert meta[j - 3] in meta;
      }
    }
    assert StartsWith(raw, Fence);
    FrontMatterCut(raw, e);
    assert raw[e + 3..] == body;
  }

  // -------------------------------------------------------------- shells

  /** The three page shells of the Markdown path. */
  datatype Shell = Docs | Blog | Plain

  /** Shell choice: the docs prefixes first, then the blog prefixes, otherwise the plain shell. */
  function ShellFor(relPath: string): Shell
  {
    if StartsWith(relPath, "docs/") || StartsWith(relPath, "fr/docs/") then Docs
    else if StartsWith(relPath, "blog/") || StartsWith(relPath, "fr/blog/") then Blog
    else Plain
  }

  /** A French page gets the shell of the English page it mirrors. */
  lemma ShellMirror(p: string)
    requires !StartsWith(p, "fr/")
    ensures ShellFor("fr/" + p) == ShellFor(p)
  {
    var q := "fr/" + p;
    assert q[0] == 'f';
    assert StartsWith(q, "fr/docs/") <==> StartsWith(p, "docs/") by {
      assert "fr/docs/" == "fr/" + "docs/";
      PrefixUnder("fr/", p, "docs/");
    }
    assert StartsWith(q, "fr/blog/") <==> StartsWith(p, "blog/") by {
      assert "fr/blog/" == "fr/" + "blog/";
      PrefixUnder("fr/", p, "blog/");
    }
    assert !StartsWith(p, "fr/docs/") by {
      assert "fr/docs/"[..3] == "fr/";
    }
    assert !StartsWith(p, "fr/blog/") by {
      assert "fr/blog/"[..3] == "fr/";
    }
  }

  /** A common prefix does not change whether one text starts with another. */
  lemma PrefixUnder(a: string, p: string, w: string)
    ensures StartsWith(a + p, a + w) <==> StartsWith(p, w)
  {
    if StartsWith(p, w) {
      assert (a + p)[..|a + w|] == a + p[..|w|];
    }
    if StartsWith(a + p, a + w) {
      assert p[..|w|] == (a + p)[..|a + w|][|a|..];
    }
  }

  /** Sections without a shell of their own, such as `case-studies/` and `enforcecore/`, get the plain shell. */
  lemma OtherSectionsArePlain(section: string, rest: string)
    requires |section| > 0 && section[0] != 'd' && section[0] != 'b' && section[0] != 'f'
    ensures !StartsWith(section + rest, "docs/") && !StartsWith(section + rest, "fr/docs/")
    ensures !StartsWith(section + rest, "blog/") && !StartsWith(section + rest, "fr/blog/")
    ensures ShellFor(section + rest) == Plain
  {
    var p := section + rest;
    assert p[0] == section[0];
  }

  /** A piece of a shell's fixed markup: literal text, the page's language code, or a label looked up through `t`. */
  datatype Part = Lit(text: string) | LangCode | Label(key: string)

  /**
   * The markup of a shell around the rendered body, in order: `head`, the
   * header partial, `top`, the body, `bottom`, the footer partial, `tail`.
   */
  datatype Layout = Layout(head: seq<Part>, top: seq<Part>, bottom: seq<Part>, tail: seq<Part>)

  /** The shells' markup, abbreviated to the parts that carry tokens and labels. */
  function LayoutOf(shell: Shell): Layout
  {
    var opening := [Lit("\n<!DOCTYPE html>\n<html lang=\""), LangCode, Lit("\">\n<head>\n<title>")];
    var styles := Lit("</title>\n<link rel=\"stylesheet\" href=\"{{ROOT}}/assets/css/styles.css\">\n");
    match shell
    case Docs =>
      Layout(opening + [Label("nav.docs"), styles, Lit("</head>\n<body>\n")],
             [Lit("\n<div class=\"page\"><div class=\"docs-wrapper\">\n")] + DocsSidebar()
               + [Lit("\n<main class=\"docs-content\">\n")],
             [Lit("\n</main>\n</div></div>\n")],
             [Lit("\n<script>...</script>\n</body>\n</html>")])
    case Blog =>
      Layout(opening + [Lit("AKIOS — "), Label("nav.blog"), styles,
                        Lit("<link rel=\"icon\" href=\"{{ROOT}}/assets/img/favicon.svg\" type=\"image/svg+xml\">\n</head>\n<body>\n")],
             [Lit("\n<article class=\"section\"><div class=\"page\"><div class=\"blog-post-wrapper\"><div class=\"blog-post-main\">\n")],
             [Lit("\n</div>\n<!-- TOC DISABLED\n<h4>"), Label("blog_post.table_of_contents"),
              Lit("</h4>\n-->\n</div></div></article>\n")],
             [Lit("\n<!-- TOC DISABLED <script>...</script> -->\n</body>\n</html>")])
    case Plain =>
      Layout(opening + [Label("nav.docs"), styles, Lit("</head>\n<body>\n")],
             [Lit("\n<div class=\"page\">\n")],
             [Lit("\n</div>\n")],
             [Lit("\n</body>\n</html>")])
  }

  /** The docs sidebar: section titles and links, most labels looked up, some fixed. */
  function DocsSidebar(): seq<Part>
  {
    [Lit("<aside class=\"docs-sidebar\"><nav class=\"docs-nav\"><div class=\"section-title\">"), Label("sidebar.start_here"),
     Lit("</div><ul><li><a href=\"{{ROOT}}/docs/index.html\">"), Label("sidebar.overview"),
     Lit("</a></li><li><a href=\"{{ROOT}}/docs/installation.html\">"), Label("sidebar.installation"),
     Lit("</a></li><li><a href=\"{{ROOT}}/docs/quickstart.html\">"), Label("sidebar.quickstart"),
     Lit("</a></li></ul><div class=\"section-title\">"), Label("sidebar.core"),
     Lit("</div><ul><li><a href=\"{{ROOT}}/docs/concepts.html\">"), Label("sidebar.concepts"),
     Lit("</a></li><li><a href=\"{{ROOT}}/docs/security.html\">"), Label("sidebar.security_model"),
     Lit("</a></li><li><a href=\"{{ROOT}}/docs/use-cases.html\">"), Label("sidebar.use_cases"),
     Lit("</a></li></ul><div class=\"section-title\">"), Label("sidebar.reference"),
     Lit("</div><ul><li><a href=\"{{ROOT}}/docs/config-reference.html\">"), Label("sidebar.config_reference"),
     Lit("</a></li><li><a href=\"{{ROOT}}/docs/policy-schema.html\">"), Label("sidebar.policy_schema"),
     Lit("</a></li><li><a href=\"{{ROOT}}/docs/cli-reference.html\">CLI Reference</a></li><li><a href=\"{{ROOT}}/docs/debugging.html\">"),
     Label("sidebar.debugging"),
     Lit("</a></li><li><a href=\"{{ROOT}}/docs/api-reference.html\">API Reference</a></li>"
       + "<li><a href=\"{{ROOT}}/docs/faq-glossary.html\">FAQ & Glossary</a></li></ul>"
       + "<div class=\"section-title\">Integration</div><ul>"
       + "<li><a href=\"{{ROOT}}/docs/integration-api.html\">API Integration</a></li>"
       + "<li><a href=\"{{ROOT}}/docs/integration-document-processing.html\">Document Processing</a></li></ul>"
       + "<div class=\"section-title\">Advanced</div><ul>"
       + "<li><a href=\"{{ROOT}}/docs/best-practices.html\">Best Practices</a></li>"
       + "<li><a href=\"{{ROOT}}/docs/deployment.html\">Deployment</a></li>"
       + "<li><a href=\"{{ROOT}}/docs/migration-guide.html\">Migration Guide</a></li></ul></nav></aside>")]
  }

  /** The markup of the three shells, as the build is given it. */
  datatype Shells = Shells(docs: Layout, blog: Layout, plain: Layout)
  {
    function For(shell: Shell): Layout
    {
      match shell
      case Docs => docs
      case Blog => blog
      case Plain => plain
    }
  }

  /** The shells written out in the build script. */
  function SourceShells(): Shells
  {
    Shells(LayoutOf(Docs), LayoutOf(Blog), LayoutOf(Plain))
  }

  /** The text one part contributes. */
  function PartText(p: Part, l: Locale, table: map<string, Value>): string
  {
    match p
    case Lit(text) => text
    case LangCode => l.Code()
    case Label(key) => Translation(table, key)
  }

  /** The parts as the template literal fills them in. */
  function Fill(parts: seq<Part>, l: Locale, table: map<string, Value>): string
  {
    if |parts| == 0 then [] else PartText(parts[0], l, table) + Fill(parts[1..], l, table)
  }

  const RootMarker: string := "{{ROOT}}"

  /** A partial as a shell embeds it: its `{{root}}` tokens renamed to `{{ROOT}}`. */
  function ShellPartial(partial: string): string
  {
    ReplaceAll(partial, RootToken, RootMarker)
  }

  /**
   * The page text of a Markdown file before the per-target substitution: the
   * header ahead of the body, the footer after it; the body is not injected.
   */
  function ComposePage(layout: Layout, l: Locale, table: map<string, Value>, header: string, footer: string,
                       body: string): (r: string)
    ensures exists a, b, c, d :: r == a + ShellPartial(header) + b + body + c + ShellPartial(footer) + d
  {
    var a := Fill(layout.head, l, table);
    var b := Fill(layout.top, l, table);
    var c := Fill(layout.bottom, l, table);
    var d := Fill(layout.tail, l, table);
    a + ShellPartial(header) + b + body + c + ShellPartial(footer) + d
  }

  /** The output name: the first occurrence of the extension becomes `.html`. */
  function MarkdownOutputName(relPath: string, ext: string): string
  {
    ReplaceFirst(relPath, ext, ".html")
  }

  /**
   * The extension replaced is its first occurrence, which is the suffix only when
   * nothing before it holds a dot; text after it is kept.
   */
  lemma MarkdownNameReplacesFirst(x: string, ext: string, y: string)
    requires '.' !in x && |ext| > 0 && ext[0] == '.'
    ensures MarkdownOutputName(x + ext + y, ext) == x + ".html" + y
  {
    var s := x + ext + y;
    assert OccursAt(s, ext, |x|);
    forall k | 0 <= k < |x|
      ensures !OccursAt(s, ext, k)
    {
      assert s[k] == x[k];
      assert x[k] in x;
    }
    assert IndexOf(s, ext) == Some(|x|);
    ReplaceFirstLiteral(s, ext, ".html");
    assert s[..|x|] == x;
    assert s[|x| + |ext|..] == y;
  }

  /** A directory named with the extension keeps the page's own extension: `a.md/b.md` becomes `a.html/b.md`. */
  lemma MarkdownNameKeepsLaterExtension(x: string, z: string, ext: string)
    requires '.' !in x && |ext| > 0 && ext[0] == '.'
    ensures MarkdownOutputName(x + ext + z + ext, ext) == x + ".html" + z + ext
  {
    assert x + ext + z + ext == x + ext + (z + ext);
    MarkdownNameReplacesFirst(x, ext, z + ext);
  }

  /** The per-target substitution of a Markdown page. */
  function MarkdownTarget(page: string, target: string, version: string): string
  {
    ReplaceAll(ReplaceAll(page, RootMarker, RootReplacement(target)), VersionToken, version)
  }

  /** Every `{{ROOT}}` and `{{version}}` of the page, body included, is gone from each target. */
  lemma MarkdownTargetResolved(page: string, target: string, version: string)
    requires PlainVersion(version)
    ensures !Occurs(MarkdownTarget(page, target, version), RootMarker)
    ensures !Occurs(MarkdownTarget(page, target, version), VersionToken)
  {
    TokensBraced();
    RootAvoidsTokens(target, RootMarker);
    RootAndVersionGone(page, RootMarker, RootReplacement(target), version);
  }
}
