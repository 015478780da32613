/**
 * The page pipeline of the build script (internal/scripts/build.mjs): the
 * version default, the table of pages rendered once per locale and the set of
 * French sources that table makes redundant, the dispatch of one source file
 * (skip, fan-out, HTML page, Markdown page, asset copy) to the outputs it
 * produces, and the build over a list of source files into a fresh output tree.
 */
module Pipeline {
  import opened Options
  import opened Text
  import opened Paths
  import opened Locales
  import opened I18n
  import opened Templates

  // ----------------------------------------------------------- version

  const DefaultVersion: string := "1.0.0"

  /**
   * The version substituted for `{{version}}`: the file's `version` field unless
   * the file is missing or unreadable (`None`), has no such field, or holds an
   * empty one, in which cases the default.
   */
  function VersionOf(file: Option<Option<string>>): (r: string)
    ensures |r| > 0
    ensures r != DefaultVersion ==> file == Some(Some(r))
    ensures file.None? || file.value.None? ==> r == DefaultVersion
    ensures file.Some? && file.value.Some? && file.value.value != "" ==> r == file.value.value
  {
    match file
    case Some(Some(v)) => if v == "" then DefaultVersion else v
    case _ => DefaultVersion
  }

  // -------------------------------------------------- fan-out and skip

  /** The page `<dir>/<name>.html`. */
  function Page(dir: string, name: string): string
  {
    Under(dir, name + ".html")
  }

  /** A page's variants: the English one at its own path, the French one under `fr/`. */
  function Variants(key: string): seq<string>
  {
    [key, Under("fr", key)]
  }

  /** `multiLocalePages`: the source pages rendered once per locale. */
  function FanOut(): map<string, seq<string>>
  {
    map[
      Page("", "index") := Variants(Page("", "index")),
      Page("", "community") := Variants(Page("", "community")),
      Page("", "legal") := Variants(Page("", "legal")),
      Page("", "terms") := Variants(Page("", "terms")),
      Page("", "privacy") := Variants(Page("", "privacy")),
      Page("", "cookies") := Variants(Page("", "cookies")),
      Page("", "disclosure") := Variants(Page("", "disclosure")),
      Page("blog", "index") := Variants(Page("blog", "index"))
    ]
  }

  /** `skipHtml`: French sources whose output the fan-out already writes. */
  const SkipHtml: set<string> := {
    Under("fr", Page("", "index")),
    Under("fr", Page("", "community")),
    Under("fr", Page("", "legal")),
    Under("fr", Page("", "terms")),
    Under("fr", Page("", "privacy")),
    Under("fr", Page("", "cookies")),
    Under("fr", Page("", "disclosure")),
    Under("fr", Page("blog", "index"))
  }

  /** The locale a variant is rendered in. */
  function VariantLocale(variant: string): Locale
  {
    if StartsWith(variant, "fr/") then Fr else En
  }

  /** Every key is mapped to its own two variants. */
  lemma FanOutEntries()
    ensures forall k | k in FanOut() :: FanOut()[k] == Variants(k)
  {
  }

  /** A path placed under `fr/` starts with `fr/`, and dropping those three characters restores it. */
  lemma UnderFrench(p: string)
    ensures StartsWith(Under("fr", p), "fr/") && Under("fr", p)[3..] == p
  {
    assert Under("fr", p) == "fr/" + p;
  }

  /** A fan-out key is an English page: it does not start with `f`. */
  lemma KeysAreEnglish()
    ensures forall k | k in FanOut() :: |k| > 0 && k[0] != 'f'
  {
  }

  /** The French copy of a key is rendered in French and is itself no key; the key is rendered in English. */
  lemma FrenchCopy(k: string)
    requires k in FanOut()
    ensures Under("fr", k) !in FanOut()
    ensures VariantLocale(k) == En && VariantLocale(Under("fr", k)) == Fr
  {
    KeysAreEnglish();
    UnderFrench(k);
    var f := Under("fr", k);
    assert f[0] == 'f';
    assert !StartsWith(k, "fr/") by {
      assert k[0] != 'f';
    }
  }

  /** Each key's first variant is the key, rendered in English; its second is its French copy, which is no key. */
  lemma VariantsOfKeys()
    ensures forall k | k in FanOut() :: |FanOut()[k]| == 2 && FanOut()[k][0] == k && FanOut()[k][1] !in FanOut()
    ensures forall k | k in FanOut() :: VariantLocale(FanOut()[k][0]) == En && VariantLocale(FanOut()[k][1]) == Fr
  {
    FanOutEntries();
    forall k | k in FanOut()
      ensures Under("fr", k) !in FanOut()
      ensures VariantLocale(k) == En && VariantLocale(Under("fr", k)) == Fr
    {
      FrenchCopy(k);
    }
  }

  /** The skip set is exactly the set of variants that are not keys. */
  lemma SkipIsNonKeyVariants()
    ensures SkipHtml == set k | k in FanOut() :: FanOut()[k][1]
  {
    FanOutEntries();
    var french := set k | k in FanOut() :: FanOut()[k][1];
    forall x | x in SkipHtml
      ensures x in french
    {
      SkipEntry(x);
    }
    forall x | x in french
      ensures x in SkipHtml
    {
      var k :| k in FanOut() && x == FanOut()[k][1];
      FrenchCopySkipped(k);
    }
  }

  /** The French copy of every key is skipped. */
  lemma FrenchCopySkipped(k: string)
    requires k in FanOut()
    ensures FanOut()[k][1] in SkipHtml
  {
  }

  /** Each skipped path is the French variant of the key it ends with. */
  lemma SkipEntry(x: string)
    requires x in SkipHtml
    ensures |x| >= 3 && x[3..] in FanOut() && Under("fr", x[3..]) == x
  {
    var k :| k in FanOut() && x == Under("fr", k);
    UnderFrench(k);
  }

  /** A page and its French copy both have the extension `.html`. */
  lemma PageIsHtml(dir: string, name: string)
    requires '/' !in name && |name| > 0
    ensures Extname(Page(dir, name)) == ".html" && Extname(Under("fr", Page(dir, name))) == ".html"
  {
    HtmlExtension(dir, name);
    FrenchUnder(dir, name + ".html");
    HtmlExtension(if dir == "" then "fr" else "fr/" + dir, name);
  }

  /** Placing `<dir>/<file>` under `fr/` is placing `file` under `fr/<dir>`. */
  lemma FrenchUnder(dir: string, file: string)
    ensures Under("fr", Under(dir, file)) == Under(if dir == "" then "fr" else "fr/" + dir, file)
  {
  }

  lemma HtmlExtension(dir: string, name: string)
    requires '/' !in name && |name| > 0
    ensures Extname(Under(dir, name + ".html")) == ".html"
  {
    var ext := ".html";
    assert ext[1..] == "html";
    assert '/' !in ext && '.' !in ext[1..];
    ExtnameOf(dir, name, ext);
  }

  /** Every fan-out key, and its French copy, is an `.html` page. */
  lemma FanOutKeysAreHtml(k: string)
    requires k in FanOut()
    ensures Extname(k) == ".html" && Extname(Under("fr", k)) == ".html"
  {
    if k == Page("", "index") {
      PageIsHtml("", "index");
    } else if k == Page("", "community") {
      PageIsHtml("", "community");
    } else if k == Page("", "legal") {
      PageIsHtml("", "legal");
    } else if k == Page("", "terms") {
      PageIsHtml("", "terms");
    } else if k == Page("", "privacy") {
      PageIsHtml("", "privacy");
    } else if k == Page("", "cookies") {
      PageIsHtml("", "cookies");
    } else if k == Page("", "disclosure") {
      PageIsHtml("", "disclosure");
    } else {
      assert k == Page("blog", "index");
      PageIsHtml("blog", "index");
    }
  }

  // ---------------------------------------------------------- dispatch

  /** What `processFile` does with a source file. */
  datatype Action = Skip | FanOutPage(variants: seq<string>) | HtmlPage | MarkdownPage(ext: string) | CopyAsset

  /** The dispatch order: skip set, fan-out table, other HTML, Markdown, anything else. */
  function Classify(relPath: string): (a: Action)
    ensures a.Skip? ==> relPath in SkipHtml
    ensures a.FanOutPage? ==> relPath in FanOut() && a.variants == FanOut()[relPath]
    ensures relPath in SkipHtml || relPath in FanOut() ==> Extname(relPath) == ".html" ==> a.Skip? || a.FanOutPage?
    ensures a.Skip? || a.FanOutPage? || a.HtmlPage? <==> Extname(relPath) == ".html"
    ensures a.MarkdownPage? <==> Extname(relPath) == ".md" || Extname(relPath) == ".mdx"
    ensures a.MarkdownPage? ==> a.ext == Extname(relPath)
  {
    var ext := Extname(relPath);
    if ext == ".html" && relPath in SkipHtml then Skip
    else if ext == ".html" && relPath in FanOut() then FanOutPage(FanOut()[relPath])
    else if ext == ".html" then HtmlPage
    else if ext == ".md" || ext == ".mdx" then MarkdownPage(ext)
    else CopyAsset
  }

  /** A source file: its path under the source root and its text. */
  datatype SourceFile = SourceFile(relPath: string, content: string)

  /** One output: a rendered page written to a target, or the source copied to its own path. */
  datatype Emit = Written(target: string, text: string) | Copied(target: string)

  /**
   * What the build has before it processes files: the partials, the version, the
   * string tables, the Markdown renderer and the markup of the three shells.
   */
  datatype Context = Context(header: string, footer: string, version: string, tables: Tables,
                             markdown: string -> string, shells: Shells)

  /** The page written to one target of an HTML source. */
  function HtmlTarget(raw: string, l: Locale, header: string, footer: string, version: string,
                      canonical: Option<string>, table: map<string, Value>, target: string): string
  {
    RenderHtml(raw, l, header, footer, RootReplacement(target), version, canonical, table)
  }

  /** The HTML page of a source as a function of the target. */
  function HtmlAt(raw: string, l: Locale, header: string, footer: string, version: string,
                    canonical: Option<string>, table: map<string, Value>): string -> string
  {
    target => HtmlTarget(raw, l, header, footer, version, canonical, table, target)
  }

  /** One page per target, in order: `page` gives the text written to each target. */
  function Renders(targets: seq<string>, page: string -> string): seq<Emit>
  {
    seq(|targets|, i requires 0 <= i < |targets| => Written(targets[i], page(targets[i])))
  }

  /** Rendering one more target appends its page. */
  lemma RendersStep(targets: seq<string>, j: nat, page: string -> string)
    requires j < |targets|
    ensures Renders(targets[..j + 1], page) == Renders(targets[..j], page) + [Written(targets[j], page(targets[j]))]
  {
  }

  /** One HTML render per target, in order. */
  function HtmlEmits(targets: seq<string>, raw: string, l: Locale, header: string, footer: string,
                     version: string, canonical: Option<string>, table: map<string, Value>): (r: seq<Emit>)
    ensures |r| == |targets|
  {
    Renders(targets, HtmlAt(raw, l, header, footer, version, canonical, table))
  }

  /** The renders of one fan-out variant: its locale's partials and canonical address, every target. */
  function VariantEmits(v: string, raw: string, ctx: Context): seq<Emit>
  {
    var l := VariantLocale(v);
    var table := ctx.tables.For(l);
    HtmlEmits(Targets(v), raw, l, Inject(ctx.header, table), Inject(ctx.footer, table),
              ctx.version, Some(CanonicalUrl(l)), table)
  }

  /** The renders of the fan-out branch, variant by variant. */
  function FanOutEmits(variants: seq<string>, raw: string, ctx: Context): seq<Emit>
  {
    Concat(variants, VariantAt(raw, ctx))
  }

  /** The renders of a fan-out source as a function of the variant. */
  function VariantAt(raw: string, ctx: Context): string -> seq<Emit>
  {
    v => VariantEmits(v, raw, ctx)
  }

  /** The targets of a list of outputs, in order. */
  function EmitTargets(es: seq<Emit>): seq<string>
  {
    seq(|es|, i requires 0 <= i < |es| => es[i].target)
  }

  /** The targets of a list of variants: each variant followed by its pretty sibling, if any. */
  function VariantTargets(variants: seq<string>): seq<string>
  {
    Concat(variants, Targets)
  }

  /** The lists `f` gives for each element, one after another. */
  function Concat<T>(xs: seq<string>, f: string -> seq<T>): seq<T>
  {
    if |xs| == 0 then []
    else Concat(xs[..|xs| - 1], f) + f(xs[|xs| - 1])
  }

  lemma ConcatStep<T>(xs: seq<string>, x: string, f: string -> seq<T>)
    ensures Concat(xs + [x], f) == Concat(xs, f) + f(x)
  {
    assert (xs + [x])[..|xs|] == xs;
  }

  lemma ConcatTwo<T>(a: string, b: string, f: string -> seq<T>)
    ensures Concat([a, b], f) == f(a) + f(b)
  {
    assert [a, b] == [a] + [b];
    ConcatStep([a], b, f);
    assert [a] == [] + [a];
    ConcatStep([], a, f);
  }

  /** The fan-out branch writes exactly the targets of its variants, in order. */
  lemma {:induction false} FanOutTargets(variants: seq<string>, raw: string, ctx: Context)
    ensures EmitTargets(FanOutEmits(variants, raw, ctx)) == VariantTargets(variants)
  {
    if |variants| > 0 {
      var n := |variants| - 1;
      FanOutTargets(variants[..n], raw, ctx);
      VariantEmitTargets(variants[n], raw, ctx);
      EmitTargetsConcat(FanOutEmits(variants[..n], raw, ctx), VariantEmits(variants[n], raw, ctx));
    }
  }

  /** One variant writes exactly its targets. */
  lemma VariantEmitTargets(v: string, raw: string, ctx: Context)
    ensures EmitTargets(VariantEmits(v, raw, ctx)) == Targets(v)
  {
    var es := VariantEmits(v, raw, ctx);
    assert |es| == |Targets(v)|;
    forall i | 0 <= i < |es| ensures es[i].target == Targets(v)[i] {
    }
  }

  lemma EmitTargetsConcat(a: seq<Emit>, b: seq<Emit>)
    ensures EmitTargets(a + b) == EmitTargets(a) + EmitTargets(b)
  {
  }

  /** Two variants give the targets of the first, then those of the second. */
  lemma TwoVariantTargets(a: string, b: string)
    ensures VariantTargets([a, b]) == Targets(a) + Targets(b)
  {
    ConcatTwo(a, b, Targets);
  }

  /** A top-level page other than the index is written to itself, its pretty sibling and their French copies. */
  lemma TopPageTargets(name: string)
    requires '/' !in name && name != "" && name != "." && name != ".." && name != "index"
    ensures VariantTargets(Variants(Page("", name)))
      == [Page("", name), Under("", name + "/index.html"), Under("fr", Page("", name)), Under("fr", name + "/index.html")]
  {
    var k := Page("", name);
    assert Under("fr", k) == Under("fr", name + ".html");
    PageTargets("", name);
    PageTargets("fr", name);
    TwoPageTargets(k, Under("", name + "/index.html"), Under("fr", k), Under("fr", name + "/index.html"));
  }

  /** A page other than an index is written to itself and its pretty sibling. */
  lemma PageTargets(dir: string, name: string)
    requires '/' !in name && name != "" && name != "." && name != ".." && name != "index" && dir != "."
    ensures Targets(Under(dir, name + ".html")) == [Under(dir, name + ".html"), Under(dir, name + "/index.html")]
  {
    PrettyPathOfPage(dir, name);
  }

  /** Two variants with two targets each. */
  lemma TwoPageTargets(a: string, pa: string, b: string, pb: string)
    requires Targets(a) == [a, pa] && Targets(b) == [b, pb]
    ensures VariantTargets([a, b]) == [a, pa, b, pb]
  {
    TwoVariantTargets(a, b);
  }

  /** `community.html` is written to four places. */
  lemma CommunityTargets()
    ensures |VariantTargets(FanOut()[Page("", "community")])| == 4
  {
    var k := Page("", "community");
    assert FanOut()[k] == Variants(k);
    assert "community"[0] != '.' && "community"[1] != 'n';
    assert '/' !in "community";
    TopPageTargets("community");
  }

  /** `index.html` is written to two places: itself and its French copy. */
  lemma IndexTargets()
    ensures VariantTargets(FanOut()[Page("", "index")]) == [Page("", "index"), Under("fr", Page("", "index"))]
  {
    var k := Page("", "index");
    assert k == Under("", "index.html");
    assert Under("fr", k) == Under("fr", "index.html");
    assert FanOut()[k] == Variants(k);
    TwoVariantTargets(k, Under("fr", k));
    IndexPageHasNoPretty("");
    IndexPageHasNoPretty("fr");
  }

  /** A composed Markdown page as a function of the target. */
  function MarkdownAt(page: string, version: string): string -> string
  {
    target => MarkdownTarget(page, target, version)
  }

  /** One per-target substitution of a Markdown page, in order. */
  function MarkdownEmits(targets: seq<string>, page: string, version: string): (r: seq<Emit>)
    ensures |r| == |targets|
  {
    Renders(targets, MarkdownAt(page, version))
  }

  /** The Markdown page before the per-target substitution. */
  function MarkdownPageText(file: SourceFile, ctx: Context): string
  {
    var l := LocaleOf(file.relPath);
    var table := ctx.tables.For(l);
    var body := ctx.markdown(StripFrontMatter(file.content));
    ComposePage(ctx.shells.For(ShellFor(file.relPath)), l, table, Inject(ctx.header, table), Inject(ctx.footer, table), body)
  }

  /** Everything `processFile` writes for one source file, in order. */
  function FileEmits(file: SourceFile, ctx: Context): seq<Emit>
  {
    var l := LocaleOf(file.relPath);
    var table := ctx.tables.For(l);
    match Classify(file.relPath)
    case Skip => []
    case FanOutPage(variants) => FanOutEmits(variants, file.content, ctx)
    case HtmlPage =>
      HtmlEmits(Targets(file.relPath), file.content, l, Inject(ctx.header, table), Inject(ctx.footer, table),
                ctx.version, None, table)
    case MarkdownPage(ext) =>
      MarkdownEmits(Targets(MarkdownOutputName(file.relPath, ext)), MarkdownPageText(file, ctx), ctx.version)
    case CopyAsset => [Copied(file.relPath)]
  }

  // ---------------------------------------------------- branch properties

  /** Every skipped path starts with `f`, while no fan-out key does. */
  lemma SkipIsFrench()
    ensures forall x | x in SkipHtml :: |x| > 0 && x[0] == 'f'
  {
    forall x | x in SkipHtml
      ensures |x| > 0 && x[0] == 'f'
    {
      SkipEntry(x);
      UnderFrench(x[3..]);
    }
  }

  /** A fan-out key is dispatched to the fan-out branch, and its French copy is skipped. */
  lemma KeyDispatch(k: string)
    requires k in FanOut()
    ensures Classify(k) == FanOutPage(Variants(k))
    ensures Classify(Under("fr", k)) == Skip
  {
    FanOutKeysAreHtml(k);
    KeysAreEnglish();
    SkipIsFrench();
    assert k !in SkipHtml;
    SkipIsNonKeyVariants();
    FanOutEntries();
    assert Under("fr", k) == FanOut()[k][1];
  }

  /** A skipped source writes nothing. */
  lemma SkippedWritesNothing(file: SourceFile, ctx: Context)
    requires file.relPath in SkipHtml
    ensures FileEmits(file, ctx) == []
  {
    SkipEntry(file.relPath);
    FanOutKeysAreHtml(file.relPath[3..]);
  }

  /** Two variants render the first, then the second. */
  lemma TwoVariantEmits(a: string, b: string, raw: string, ctx: Context)
    ensures FanOutEmits([a, b], raw, ctx) == VariantEmits(a, raw, ctx) + VariantEmits(b, raw, ctx)
  {
    ConcatTwo(a, b, VariantAt(raw, ctx));
  }

  /**
   * A fan-out key is rendered twice: to its own targets in English, with the
   * English partials, table and canonical address, then to the targets of its
   * French copy in French, with the French ones.
   */
  lemma KeyRenders(k: string, raw: string, ctx: Context)
    requires k in FanOut()
    ensures FileEmits(SourceFile(k, raw), ctx) == FanOutEmits(Variants(k), raw, ctx)
    ensures var en := ctx.tables.en;
      var fr := ctx.tables.fr;
      FanOutEmits(Variants(k), raw, ctx)
        == HtmlEmits(Targets(k), raw, En, Inject(ctx.header, en), Inject(ctx.footer, en), ctx.version, Some(CanonicalUrl(En)), en)
         + HtmlEmits(Targets(Under("fr", k)), raw, Fr, Inject(ctx.header, fr), Inject(ctx.footer, fr), ctx.version, Some(CanonicalUrl(Fr)), fr)
  {
    KeyDispatch(k);
    FrenchCopy(k);
    TwoVariantEmits(k, Under("fr", k), raw, ctx);
  }

  /**
   * `e` writes, to its target, the page rendered from `raw` for locale `l` with
   * that locale's partials, table and canonical address, and the text it handed
   * to the injection holds no `{{canonical}}`.
   */
  predicate AddressFilled(e: Emit, raw: string, l: Locale, ctx: Context)
  {
    var table := ctx.tables.For(l);
    var w := Prepared(raw, l, Inject(ctx.header, table), Inject(ctx.footer, table),
                      RootReplacement(e.target), ctx.version, Some(CanonicalUrl(l)));
    e.Written? && e.text == Inject(w, table) && !Occurs(w, CanonicalToken)
  }

  /**
   * `r` renders English pages to `ta`, then French ones to `tb`, each with its
   * locale's address filled in.
   */
  predicate SidesFilled(r: seq<Emit>, ta: seq<string>, tb: seq<string>, raw: string, ctx: Context)
  {
    |r| == |ta| + |tb|
    && (forall i | 0 <= i < |ta| :: r[i].target == ta[i] && AddressFilled(r[i], raw, En, ctx))
    && (forall j | 0 <= j < |tb| :: r[|ta| + j].target == tb[j] && AddressFilled(r[|ta| + j], raw, Fr, ctx))
  }

  /** Rendering any page with the locale's address fills in `{{canonical}}` on every target. */
  lemma CanonicalTargets(targets: seq<string>, raw: string, l: Locale, ctx: Context)
    ensures var table := ctx.tables.For(l);
      var r := HtmlEmits(targets, raw, l, Inject(ctx.header, table), Inject(ctx.footer, table),
                         ctx.version, Some(CanonicalUrl(l)), table);
      forall i | 0 <= i < |r| :: r[i].target == targets[i] && AddressFilled(r[i], raw, l, ctx)
  {
    var table := ctx.tables.For(l);
    forall t: string
      ensures !Occurs(Prepared(raw, l, Inject(ctx.header, table), Inject(ctx.footer, table),
                               RootReplacement(t), ctx.version, Some(CanonicalUrl(l))), CanonicalToken)
    {
      CanonicalFilled(raw, l, Inject(ctx.header, table), Inject(ctx.footer, table), RootReplacement(t), ctx.version);
    }
  }

  /**
   * Whatever the page, every English target of a fan-out page gets the English
   * address and every French target the French one: no `{{canonical}}` reaches
   * the injection.
   */
  lemma FanOutCanonical(k: string, raw: string, ctx: Context)
    requires k in FanOut()
    ensures SidesFilled(FileEmits(SourceFile(k, raw), ctx), Targets(k), Targets(Under("fr", k)), raw, ctx)
  {
    var r := FileEmits(SourceFile(k, raw), ctx);
    var en := ctx.tables.en;
    var fr := ctx.tables.fr;
    assert r == HtmlEmits(Targets(k), raw, En, Inject(ctx.header, en), Inject(ctx.footer, en), ctx.version, Some(CanonicalUrl(En)), en)
              + HtmlEmits(Targets(Under("fr", k)), raw, Fr, Inject(ctx.header, fr), Inject(ctx.footer, fr), ctx.version, Some(CanonicalUrl(Fr)), fr) by {
      KeyRenders(k, raw, ctx);
    }
    FilledHalves(r, Targets(k), Targets(Under("fr", k)), raw, ctx);
  }

  /** English renders to `ta`, then French ones to `tb`: every one has its address filled in. */
  lemma FilledHalves(r: seq<Emit>, ta: seq<string>, tb: seq<string>, raw: string, ctx: Context)
    requires var en := ctx.tables.en;
      var fr := ctx.tables.fr;
      r == HtmlEmits(ta, raw, En, Inject(ctx.header, en), Inject(ctx.footer, en), ctx.version, Some(CanonicalUrl(En)), en)
         + HtmlEmits(tb, raw, Fr, Inject(ctx.header, fr), Inject(ctx.footer, fr), ctx.version, Some(CanonicalUrl(Fr)), fr)
    ensures SidesFilled(r, ta, tb, raw, ctx)
  {
    var en := ctx.tables.en;
    var fr := ctx.tables.fr;
    var a := HtmlEmits(ta, raw, En, Inject(ctx.header, en), Inject(ctx.footer, en), ctx.version, Some(CanonicalUrl(En)), en);
    var b := HtmlEmits(tb, raw, Fr, Inject(ctx.header, fr), Inject(ctx.footer, fr), ctx.version, Some(CanonicalUrl(Fr)), fr);
    CanonicalTargets(ta, raw, En, ctx);
    CanonicalTargets(tb, raw, Fr, ctx);
    FilledSides(r, a, b, ta, tb, e => AddressFilled(e, raw, En, ctx), e => AddressFilled(e, raw, Fr, ctx));
  }

  /** Renders `a` to `ta`, then renders `b` to `tb`: each render keeps its target and what `p`, resp. `q`, says of it. */
  lemma FilledSides(r: seq<Emit>, a: seq<Emit>, b: seq<Emit>, ta: seq<string>, tb: seq<string>,
                    p: Emit -> bool, q: Emit -> bool)
    requires r == a + b && |a| == |ta| && |b| == |tb|
    requires forall i | 0 <= i < |a| :: a[i].target == ta[i] && p(a[i])
    requires forall j | 0 <= j < |b| :: b[j].target == tb[j] && q(b[j])
    ensures |r| == |ta| + |tb|
    ensures forall i | 0 <= i < |ta| :: r[i].target == ta[i] && p(r[i])
    ensures forall j | 0 <= j < |tb| :: r[|ta| + j].target == tb[j] && q(r[|ta| + j])
  {
    forall j | 0 <= j < |tb| ensures r[|ta| + j] == b[j] {
    }
  }

  /**
   * Rendering without an address keeps, on every target, each `{{canonical}}` of
   * the page that the lang tag does not run through, given a `$`-free version.
   */
  lemma KeptCanonicalTargets(targets: seq<string>, raw: string, k: nat, l: Locale, header: string, footer: string,
                             version: string, table: map<string, Value>)
    requires OccursAt(raw, CanonicalToken, k) && LangTagClear(raw, k, |CanonicalToken|) && '$' !in version
    ensures var r := HtmlEmits(targets, raw, l, header, footer, version, None, table);
      forall i | 0 <= i < |r| :: r[i].Written? && r[i].target == targets[i] && Occurs(r[i].text, CanonicalToken)
  {
    forall t: string
      ensures Occurs(HtmlTarget(raw, l, header, footer, version, None, table, t), CanonicalToken)
    {
      TokensBraced();
      RootAvoidsTokens(t, RootToken);
      CanonicalOnlyOnFanOut(raw, k, l, header, footer, RootReplacement(t), version, table);
    }
  }

  /**
   * An ordinary HTML page keeps on every target each `{{canonical}}` that the
   * lang tag does not run through, given a `$`-free version.
   */
  lemma GenericKeepsCanonical(relPath: string, raw: string, k: nat, ctx: Context)
    requires Classify(relPath) == HtmlPage
    requires OccursAt(raw, CanonicalToken, k) && LangTagClear(raw, k, |CanonicalToken|) && '$' !in ctx.version
    ensures var r := FileEmits(SourceFile(relPath, raw), ctx);
      |r| == |Targets(relPath)|
      && forall i | 0 <= i < |r| :: r[i].Written? && r[i].target == Targets(relPath)[i] && Occurs(r[i].text, CanonicalToken)
  {
    var l := LocaleOf(relPath);
    var table := ctx.tables.For(l);
    KeptCanonicalTargets(Targets(relPath), raw, k, l, Inject(ctx.header, table), Inject(ctx.footer, table),
                         ctx.version, table);
  }

  /**
   * Every target of a Markdown page is its output name or that name's pretty
   * sibling, and with a plain version no `{{ROOT}}` or `{{version}}` is left in it.
   */
  lemma MarkdownOutputs(file: SourceFile, ctx: Context, i: nat)
    requires Classify(file.relPath).MarkdownPage?
    requires PlainVersion(ctx.version)
    requires i < |FileEmits(file, ctx)|
    ensures var name := MarkdownOutputName(file.relPath, Extname(file.relPath));
      var e := FileEmits(file, ctx)[i];
      i < |Targets(name)| && e.Written? && e.target == Targets(name)[i]
      && !Occurs(e.text, RootMarker) && !Occurs(e.text, VersionToken)
  {
    var name := MarkdownOutputName(file.relPath, Extname(file.relPath));
    var page := MarkdownPageText(file, ctx);
    MarkdownTargetResolved(page, Targets(name)[i], ctx.version);
  }

  /** The per-target loop of both HTML branches: each target's page built by successive substitutions. */
  method RenderHtmlTargets(targets: seq<string>, raw: string, l: Locale, header: string, footer: string,
                           version: string, canonical: Option<string>, table: map<string, Value>)
    returns (outs: seq<Emit>)
    ensures outs == HtmlEmits(targets, raw, l, header, footer, version, canonical, table)
  {
    outs := [];
    for j := 0 to |targets|
      invariant outs == HtmlEmits(targets[..j], raw, l, header, footer, version, canonical, table)
    {
      var content := RenderHtmlTarget(raw, l, header, footer, version, canonical, table, targets[j]);
      RendersStep(targets, j, HtmlAt(raw, l, header, footer, version, canonical, table));
      outs := outs + [Written(targets[j], content)];
    }
    assert targets[..|targets|] == targets;
  }

  /** The substitutions for one target of an HTML source, one after another. */
  method RenderHtmlTarget(raw: string, l: Locale, header: string, footer: string, version: string,
                          canonical: Option<string>, table: map<string, Value>, finalRel: string)
    returns (content: string)
    ensures content == HtmlTarget(raw, l, header, footer, version, canonical, table, finalRel)
  {
    var prefix := RootPrefix(finalRel);
    var rootReplacement := if EndsWith(prefix, "/") then prefix[..|prefix| - 1] else prefix;
    assert rootReplacement == RootReplacement(finalRel);
    content := ReplaceLang(raw, l);
    content := ReplaceFirst(content, HeaderMarker, header);
    content := ReplaceFirst(content, FooterMarker, footer);
    content := ReplaceAll(content, RootToken, rootReplacement);
    content := ReplaceAll(content, VersionToken, version);
    assert content == Substitute(raw, l, header, footer, rootReplacement, version);
    if canonical.Some? {
      content := ReplaceAll(content, CanonicalToken, canonical.value);
    }
    content := Inject(content, table);
  }

  /** The fan-out loop: every variant in its own locale, with that locale's partials and canonical address. */
  method RenderFanOut(variants: seq<string>, raw: string, ctx: Context) returns (outs: seq<Emit>)
    ensures outs == FanOutEmits(variants, raw, ctx)
  {
    outs := [];
    for i := 0 to |variants|
      invariant outs == FanOutEmits(variants[..i], raw, ctx)
    {
      assert variants[..i + 1][..i] == variants[..i];
      var targetRel := variants[i];
      var targetLocale := if StartsWith(targetRel, "fr/") then Fr else En;
      var table := ctx.tables.For(targetLocale);
      var header := Inject(ctx.header, table);
      var footer := Inject(ctx.footer, table);
      var canonical := if targetLocale == Fr then "https://akios.ai/fr/" else "https://akios.ai/";
      var rendered := RenderHtmlTargets(Targets(targetRel), raw, targetLocale, header, footer, ctx.version,
                                        Some(canonical), table);
      outs := outs + rendered;
    }
    assert variants[..|variants|] == variants;
  }

  /** The per-target loop of the Markdown branch. */
  method RenderMarkdownTargets(targets: seq<string>, page: string, version: string) returns (outs: seq<Emit>)
    ensures outs == MarkdownEmits(targets, page, version)
  {
    outs := [];
    for j := 0 to |targets|
      invariant outs == MarkdownEmits(targets[..j], page, version)
    {
      assert targets[..j + 1][..j] == targets[..j];
      var finalRel := targets[j];
      var prefix := RootPrefix(finalRel);
      var rootRepl := if EndsWith(prefix, "/") then prefix[..|prefix| - 1] else prefix;
      var adjusted := ReplaceAll(ReplaceAll(page, RootMarker, rootRepl), VersionToken, version);
      assert adjusted == MarkdownTarget(page, finalRel, version);
      RendersStep(targets, j, MarkdownAt(page, version));
      outs := outs + [Written(finalRel, adjusted)];
    }
    assert targets[..|targets|] == targets;
  }

  /** `processFile`: the dispatch, in the order of the source. */
  method ProcessFile(file: SourceFile, ctx: Context) returns (outs: seq<Emit>)
    ensures outs == FileEmits(file, ctx)
  {
    var relPath := file.relPath;
    var ext := Extname(relPath);
    var locale := LocaleOf(relPath);
    if ext == ".html" && relPath in SkipHtml {
      assert Classify(relPath) == Skip;
      outs := [];
    } else if ext == ".html" && relPath in FanOut() {
      assert Classify(relPath) == FanOutPage(FanOut()[relPath]);
      outs := RenderFanOut(FanOut()[relPath], file.content, ctx);
    } else if ext == ".html" {
      assert Classify(relPath) == HtmlPage;
      var table := ctx.tables.For(locale);
      outs := RenderHtmlTargets(Targets(relPath), file.content, locale, Inject(ctx.header, table),
                                Inject(ctx.footer, table), ctx.version, None, table);
    } else if ext == ".md" || ext == ".mdx" {
      assert Classify(relPath) == MarkdownPage(ext);
      var page := MarkdownPageText(file, ctx);
      outs := RenderMarkdownTargets(Targets(MarkdownOutputName(relPath, ext)), page, ctx.version);
    } else {
      assert Classify(relPath) == CopyAsset;
      outs := [Copied(relPath)];
    }
  }

  // -------------------------------------------------------------- build

  /** Writes one file's outputs into the output tree, a later write replacing an earlier one. */
  function Apply(dist: map<string, string>, file: SourceFile, es: seq<Emit>): map<string, string>
  {
    if |es| == 0 then dist
    else
      var e := es[|es| - 1];
      Apply(dist, file, es[..|es| - 1])[e.target := if e.Written? then e.text else file.content]
  }

  /** The tree after writing each file's outputs in turn over `dist`. */
  function Tree(dist: map<string, string>, files: seq<SourceFile>, emits: seq<seq<Emit>>): map<string, string>
    requires |files| == |emits|
  {
    if |files| == 0 then dist
    else Apply(Tree(dist, files[..|files| - 1], emits[..|files| - 1]), files[|files| - 1], emits[|files| - 1])
  }

  /** The outputs of each source file in turn, for any way `f` of processing one file. */
  function EmitsOf(files: seq<SourceFile>, f: SourceFile -> seq<Emit>): (r: seq<seq<Emit>>)
    ensures |r| == |files|
  {
    if |files| == 0 then []
    else EmitsOf(files[..|files| - 1], f) + [f(files[|files| - 1])]
  }

  /** The `i`-th entry of `EmitsOf` is what the `i`-th source yields. */
  lemma {:induction false} EmitsOfAt(files: seq<SourceFile>, f: SourceFile -> seq<Emit>, i: nat)
    requires i < |files|
    ensures EmitsOf(files, f)[i] == f(files[i])
  {
    var n := |files| - 1;
    if i < n {
      EmitsOfAt(files[..n], f, i);
    }
  }

  /** `processFile` as a function of the source file. */
  function Processor(ctx: Context): SourceFile -> seq<Emit>
  {
    file => FileEmits(file, ctx)
  }

  /** What `processFile` writes for each source file, in order. */
  function Emitted(files: seq<SourceFile>, ctx: Context): (r: seq<seq<Emit>>)
    ensures |r| == |files|
  {
    EmitsOf(files, Processor(ctx))
  }

  /** The `i`-th entry of `Emitted` is what the `i`-th source writes. */
  lemma EmittedAt(files: seq<SourceFile>, ctx: Context, i: nat)
    requires i < |files|
    ensures Emitted(files, ctx)[i] == FileEmits(files[i], ctx)
  {
    EmitsOfAt(files, Processor(ctx), i);
  }

  /** The output tree after processing `files` in order, starting from the emptied output directory. */
  function BuildSpec(files: seq<SourceFile>, ctx: Context): map<string, string>
  {
    Tree(map[], files, Emitted(files, ctx))
  }

  /** Processing one more source writes its outputs over the tree built so far. */
  lemma BuildStep(files: seq<SourceFile>, file: SourceFile, ctx: Context)
    ensures BuildSpec(files + [file], ctx) == Apply(BuildSpec(files, ctx), file, FileEmits(file, ctx))
  {
    TreeOfStep(files, file, Processor(ctx));
  }

  /** Building one more source, for any way of processing one file. */
  lemma TreeOfStep(files: seq<SourceFile>, file: SourceFile, f: SourceFile -> seq<Emit>)
    ensures Tree(map[], files + [file], EmitsOf(files + [file], f)) == Apply(Tree(map[], files, EmitsOf(files, f)), file, f(file))
  {
    assert (files + [file])[..|files|] == files;
    TreeStep(files, EmitsOf(files, f), file, f(file));
  }

  /** Writes one file's outputs into the output tree in order. */
  method WriteOutputs(dist: map<string, string>, file: SourceFile, outs: seq<Emit>) returns (d: map<string, string>)
    ensures d == Apply(dist, file, outs)
  {
    d := dist;
    for j := 0 to |outs|
      invariant d == Apply(dist, file, outs[..j])
    {
      assert outs[..j + 1][..j] == outs[..j];
      match outs[j]
      case Written(target, text) =>
        d := d[target := text];
      case Copied(target) =>
        d := d[target := file.content];
    }
    assert outs[..|outs|] == outs;
  }

  /** The build: empty the output tree, then process every source file in turn. */
  method Build(files: seq<SourceFile>, ctx: Context) returns (dist: map<string, string>)
    ensures dist == BuildSpec(files, ctx)
  {
    dist := map[];
    for i := 0 to |files|
      invariant dist == BuildSpec(files[..i], ctx)
    {
      dist := BuildOne(dist, files, i, ctx);
    }
    assert files[..|files|] == files;
  }

  /** One turn of the build loop: process the next source and write its outputs. */
  method BuildOne(dist: map<string, string>, files: seq<SourceFile>, i: nat, ctx: Context) returns (d: map<string, string>)
    requires i < |files| && dist == BuildSpec(files[..i], ctx)
    ensures d == BuildSpec(files[..i + 1], ctx)
  {
    var outs := ProcessFile(files[i], ctx);
    d := WriteOutputs(dist, files[i], outs);
    BuildPrefixStep(files, i, ctx);
  }

  /** The build of a prefix one source longer. */
  lemma BuildPrefixStep(files: seq<SourceFile>, i: nat, ctx: Context)
    requires i < |files|
    ensures BuildSpec(files[..i + 1], ctx) == Apply(BuildSpec(files[..i], ctx), files[i], FileEmits(files[i], ctx))
  {
    TreePrefixStep(files, i, Processor(ctx));
  }

  /** Building a prefix one source longer, for any way of processing one file. */
  lemma TreePrefixStep(files: seq<SourceFile>, i: nat, f: SourceFile -> seq<Emit>)
    requires i < |files|
    ensures Tree(map[], files[..i + 1], EmitsOf(files[..i + 1], f))
      == Apply(Tree(map[], files[..i], EmitsOf(files[..i], f)), files[i], f(files[i]))
  {
    var longer := files[..i + 1];
    assert longer[..i] == files[..i];
    var emits := EmitsOf(longer, f);
    assert emits[..i] == EmitsOf(files[..i], f);
  }

  /** Writing one more file's outputs. */
  lemma TreeStep(files: seq<SourceFile>, emits: seq<seq<Emit>>, file: SourceFile, es: seq<Emit>)
    requires |files| == |emits|
    ensures Tree(map[], files + [file], emits + [es]) == Apply(Tree(map[], files, emits), file, es)
  {
    assert (files + [file])[..|files|] == files;
    assert (emits + [es])[..|files|] == emits;
  }

  /** A path is in the tree after a file's writes iff it was before or the file writes it. */
  lemma {:induction false} ApplyKeys(dist: map<string, string>, file: SourceFile, es: seq<Emit>, t: string)
    ensures t in Apply(dist, file, es) <==> t in dist || t in EmitTargets(es)
  {
    if |es| > 0 {
      var n := |es| - 1;
      ApplyKeys(dist, file, es[..n], t);
      assert EmitTargets(es) == EmitTargets(es[..n]) + [es[n].target];
    }
  }

  /** A path is in the tree iff it was in the starting tree or some file writes it. */
  lemma {:induction false} TreeKeys(dist: map<string, string>, files: seq<SourceFile>, emits: seq<seq<Emit>>, t: string)
    requires |files| == |emits|
    ensures t in Tree(dist, files, emits) <==> t in dist || exists i :: 0 <= i < |emits| && t in EmitTargets(emits[i])
  {
    if |files| > 0 {
      var n := |files| - 1;
      TreeKeys(dist, files[..n], emits[..n], t);
      ApplyKeys(Tree(dist, files[..n], emits[..n]), files[n], emits[n], t);
      if exists i :: 0 <= i < |emits| && t in EmitTargets(emits[i]) {
        var i :| 0 <= i < |emits| && t in EmitTargets(emits[i]);
        if i < n {
          assert emits[..n][i] == emits[i];
        }
      }
      if exists i :: 0 <= i < n && t in EmitTargets(emits[..n][i]) {
        var i :| 0 <= i < n && t in EmitTargets(emits[..n][i]);
        assert emits[..n][i] == emits[i];
      }
    }
  }

  /** A path is in the built tree iff some source file writes it: the tree starts out empty. */
  lemma BuildKeys(files: seq<SourceFile>, ctx: Context, t: string)
    ensures t in BuildSpec(files, ctx) <==> exists i :: 0 <= i < |files| && t in EmitTargets(FileEmits(files[i], ctx))
  {
    var emits := Emitted(files, ctx);
    TreeKeys(map[], files, emits, t);
    if exists i :: 0 <= i < |emits| && t in EmitTargets(emits[i]) {
      var i :| 0 <= i < |emits| && t in EmitTargets(emits[i]);
      EmittedAt(files, ctx, i);
    }
    if exists i :: 0 <= i < |files| && t in EmitTargets(FileEmits(files[i], ctx)) {
      var i :| 0 <= i < |files| && t in EmitTargets(FileEmits(files[i], ctx));
      EmittedAt(files, ctx, i);
    }
  }

  /** Processing a skipped source leaves the tree as it was. */
  lemma SkippedFileChangesNothing(files: seq<SourceFile>, file: SourceFile, ctx: Context)
    requires file.relPath in SkipHtml
    ensures BuildSpec(files + [file], ctx) == BuildSpec(files, ctx)
  {
    SkippedWritesNothing(file, ctx);
    BuildStep(files, file, ctx);
  }

  /**
   * Whenever a fan-out key is among the sources, the built tree holds its
   * French copy, even though the French source file itself is skipped.
   */
  lemma FrenchCopyBuilt(files: seq<SourceFile>, ctx: Context, i: nat)
    requires i < |files| && files[i].relPath in FanOut()
    ensures Under("fr", files[i].relPath) in BuildSpec(files, ctx)
  {
    var k := files[i].relPath;
    KeyRenders(k, files[i].content, ctx);
    assert files[i] == SourceFile(k, files[i].content);
    FanOutTargets(Variants(k), files[i].content, ctx);
    TwoVariantTargets(k, Under("fr", k));
    assert Under("fr", k) == VariantTargets(Variants(k))[|Targets(k)|];
    BuildKeys(files, ctx, Under("fr", k));
  }
}
