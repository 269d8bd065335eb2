/** The locale plugin's own derivations (src/locale.ts): package-name
    normalisation, the merged options, the default locale, the UI-library
    locale candidates and the data handed to each generated template.

    The host framework is reduced to what the plugin reads from it
    (`PluginHost`); template rendering and file writing are not modelled, so
    the generation step returns the data each template is rendered with. */
module Locale {
  import opened Wrappers
  import opened Builtins
  import opened LocaleUtils

  // ---------------------------------------------------------------------------
  // packageNormalize

  /** The characters of `/[@\/\-.]/g`. */
  predicate IsPackagePunctuation(c: char) { c == '@' || c == '/' || c == '-' || c == '.' }

  /** `packageName.replace(/[@\/\-.]/g, "_")`. */
  function PackageNormalize(packageName: string): (r: string)
    ensures |r| == |packageName|
    ensures forall i :: 0 <= i < |r| ==> !IsPackagePunctuation(r[i])
    ensures forall i :: 0 <= i < |r| ==>
      if IsPackagePunctuation(packageName[i]) then r[i] == '_' else r[i] == packageName[i]
  {
    if packageName == [] then []
    else
      var c := if IsPackagePunctuation(packageName[0]) then '_' else packageName[0];
      [c] + PackageNormalize(packageName[1..])
  }

  lemma PackageNormalizeIdempotent(packageName: string)
    ensures PackageNormalize(PackageNormalize(packageName)) == PackageNormalize(packageName)
  {
  }

  // ---------------------------------------------------------------------------
  // Options

  /** `api.config.locale`: every key optional. */
  datatype LocaleConfig = LocaleConfig(
    default: Option<string>,
    baseNavigator: Option<bool>,
    useLocalStorage: Option<bool>,
    title: Option<bool>,
    metisui: Option<bool>,
    baseSeparator: Option<string>)

  /** The options after `{ ...defaultConfig, ...api.config.locale }`. */
  datatype Options = Options(
    default: Option<string>,
    baseNavigator: bool,
    useLocalStorage: bool,
    title: Option<bool>,
    metisui: bool,
    baseSeparator: string)

  /** The spread: every key the user sets wins, every other key takes the
      default (`baseNavigator` and `useLocalStorage` on, separator `-`,
      `metisui` on exactly when the UI library is installed). */
  function MergeConfig(user: LocaleConfig, hasMetisUI: bool): (o: Options)
    ensures o.baseNavigator == user.baseNavigator.GetOr(true)
    ensures o.useLocalStorage == user.useLocalStorage.GetOr(true)
    ensures o.baseSeparator == user.baseSeparator.GetOr("-")
    ensures o.metisui == user.metisui.GetOr(hasMetisUI)
    ensures o.default == user.default && o.title == user.title
  {
    Options(
      user.default,
      user.baseNavigator.GetOr(true),
      user.useLocalStorage.GetOr(true),
      user.title,
      user.metisui.GetOr(hasMetisUI),
      user.baseSeparator.GetOr("-"))
  }

  /** A config that sets every key is taken as it is. */
  lemma MergeConfigUserWins(o: Options, hasMetisUI: bool)
    ensures MergeConfig(LocaleConfig(o.default, Some(o.baseNavigator), Some(o.useLocalStorage),
                                     o.title, Some(o.metisui), Some(o.baseSeparator)), hasMetisUI) == o
  {
  }

  /** `api.config.locale?.default || \`zh${baseSeparator}CN\``: the configured
      default unless it is missing or empty. Never empty. */
  function DefaultLocale(user: LocaleConfig, baseSeparator: string): (d: string)
    ensures d != ""
    ensures user.default.Some? && user.default.value != "" ==> d == user.default.value
    ensures user.default.None? || user.default.value == "" ==> d == "zh" + baseSeparator + "CN"
  {
    if user.default.Some? && user.default.value != "" then user.default.value
    else "zh" + baseSeparator + "CN"
  }

  /** With no configured default and a one-character separator that is not a
      letter, the fallback splits into `zh` and `CN`. */
  lemma DefaultLocaleFallbackSplits(user: LocaleConfig, sep: char)
    requires user.default.None? || user.default.value == ""
    requires !IsAsciiLetter(sep)
    ensures Split(DefaultLocale(user, [sep]), sep) == ["zh", "CN"]
  {
    NameSplits("zh", "CN", sep);
    assert DefaultLocale(user, [sep]) == "zh" + ([sep] + "CN");
  }

  // ---------------------------------------------------------------------------
  // UI-library locales

  /** `api.config?.ssr ? "lib" : "es"` */
  function MetisUIFiles(ssr: bool): string {
    if ssr then "lib" else "es"
  }

  /** The initial value of the `addMetisUILocales` hook: the library's locale
      module for the language and country. */
  function InitialMetisUILocale(lang: string, country: string, ssr: bool): string {
    "metis-ui/" + MetisUIFiles(ssr) + "/locale/" + GetMetisUILocale(lang, country)
  }

  /** The candidate is the four path segments `metis-ui`, `lib` or `es`,
      `locale` and the UI locale name. */
  lemma {:induction false} InitialMetisUILocaleSegments(lang: string, country: string, ssr: bool)
    requires '/' !in lang && '/' !in country
    ensures Split(InitialMetisUILocale(lang, country, ssr), '/') ==
      ["metis-ui", MetisUIFiles(ssr), "locale", GetMetisUILocale(lang, country)]
  {
    var ui := GetMetisUILocale(lang, country);
    var files := MetisUIFiles(ssr);
    NoSlashInMetisUILocale(lang, country);
    assert '/' !in files;
    var parts := ["metis-ui", files, "locale", ui];
    SplitJoin(parts, '/');
    JoinFour(parts, '/');
    SlashSeparated(files, ui);
  }

  /** The candidate's literal pieces, written out with their slashes. */
  lemma SlashSeparated(files: string, ui: string)
    ensures "metis-ui/" + files + "/locale/" + ui == "metis-ui" + ['/'] + files + ['/'] + "locale" + ['/'] + ui
  {
    assert "metis-ui/" == "metis-ui" + ['/'];
    assert "/locale/" == ['/'] + "locale" + ['/'];
  }

  lemma NoSlashInMetisUILocale(lang: string, country: string)
    requires '/' !in lang && '/' !in country
    ensures '/' !in GetMetisUILocale(lang, country)
  {
    var ui := GetMetisUILocale(lang, country);
    var src := if country == "" then lang else country;
    forall i | 0 <= i < |ui| ensures ui[i] != '/' {
      if i > |lang| {
        assert ui[i] == UpperAscii(src[i - |lang| - 1]);
      } else if i < |lang| {
        assert ui[..|lang|][i] == lang[i];
      }
    }
  }

  lemma JoinFour(parts: seq<string>, d: char)
    requires |parts| == 4
    ensures Join(parts, d) == parts[0] + [d] + parts[1] + [d] + parts[2] + [d] + parts[3]
  {
    assert parts[1..][1..][1..] == [parts[3]];
    assert Join(parts[1..][1..], d) == parts[2] + [d] + parts[3];
  }

  /** `addMetisUILocales`: the host's `add`-type hook, seeded with the
      initial candidate; the hook itself is a parameter. */
  function AddMetisUILocales(applyHook: (seq<string>, string, string) -> seq<string>, ssr: bool)
    : (string, string) -> seq<string>
  {
    (lang: string, country: string) => applyHook([InitialMetisUILocale(lang, country, ssr)], lang, country)
  }

  // ---------------------------------------------------------------------------
  // Template data

  /** `ShowSelectLang: localeList.length > 1 && !!metisui` */
  predicate ShowSelectLang(localeList: seq<LocaleEntry>, metisui: bool) {
    |localeList| > 1 && metisui
  }

  datatype Indexed<T> = Indexed(value: T, index: nat)

  /** `xs.map((x, index) => ({ x, index }))` */
  function WithIndex<T>(xs: seq<T>): (r: seq<Indexed<T>>)
    ensures |r| == |xs|
    ensures forall i :: 0 <= i < |r| ==> r[i].index == i
  {
    if xs == [] then [] else WithIndex(xs[..|xs| - 1]) + [Indexed(xs[|xs| - 1], |xs| - 1)]
  }

  function Values<T>(r: seq<Indexed<T>>): seq<T> {
    if r == [] then [] else Values(r[..|r| - 1]) + [r[|r| - 1].value]
  }

  /** Pairing with positions keeps the elements and their order. */
  lemma {:induction false} WithIndexValues<T>(xs: seq<T>)
    ensures Values(WithIndex(xs)) == xs
  {
    if xs != [] {
      WithIndexValues(xs[..|xs| - 1]);
      var r := WithIndex(xs);
      assert r[..|r| - 1] == WithIndex(xs[..|xs| - 1]);
    }
  }

  /** An entry as the `localeExports` template sees it: its UI locales and
      paths paired with their positions. */
  datatype RenderedLocale = RenderedLocale(
    lang: string,
    name: string,
    locale: string,
    country: string,
    metisuiLocale: seq<Indexed<string>>,
    paths: seq<Indexed<string>>)

  function Render(e: LocaleEntry): RenderedLocale {
    RenderedLocale(e.lang, e.name, e.locale, e.country, WithIndex(e.metisuiLocale), WithIndex(e.paths))
  }

  function RenderLocaleList(es: seq<LocaleEntry>): (r: seq<RenderedLocale>)
    ensures |r| == |es|
    ensures forall i :: 0 <= i < |es| ==> r[i] == Render(es[i])
  {
    seq(|es|, i requires 0 <= i < |es| => Render(es[i]))
  }

  /** Rendering keeps every entry's UI locales and paths, in order, and
      numbers them 0..n-1. */
  lemma RenderLocaleListKeepsOrder(es: seq<LocaleEntry>)
    ensures var r := RenderLocaleList(es);
      forall i :: 0 <= i < |es| ==>
        && Values(r[i].metisuiLocale) == es[i].metisuiLocale
        && Values(r[i].paths) == es[i].paths
        && (forall k :: 0 <= k < |r[i].paths| ==> r[i].paths[k].index == k)
        && (forall k :: 0 <= k < |r[i].metisuiLocale| ==> r[i].metisuiLocale[k].index == k)
  {
    forall i | 0 <= i < |es|
      ensures Values(WithIndex(es[i].metisuiLocale)) == es[i].metisuiLocale
      ensures Values(WithIndex(es[i].paths)) == es[i].paths
    {
      WithIndexValues(es[i].metisuiLocale);
      WithIndexValues(es[i].paths);
    }
  }

  // ---------------------------------------------------------------------------
  // onGenerateFiles

  /** What the plugin reads from the host and the file system. */
  datatype PluginHost = PluginHost(
    // `require.resolve("metis-ui")` succeeded when the plugin was set up
    hasMetisUI: bool,
    // `api.config.locale`
    locale: LocaleConfig,
    // `api.config.ssr` and `api.config.title`, as truth values
    ssr: bool,
    appTitle: bool,
    // the two glob listings, `existsSync` and `require.resolve` probes
    srcFiles: seq<string>,
    pagesFiles: seq<string>,
    fileExists: string -> bool,
    moduleExists: string -> bool,
    // `api.applyPlugins({ key: "addMetisUILocales", type: add, initialValue, args })`
    applyAddMetisUILocales: (seq<string>, string, string) -> seq<string>,
    // `existsSync(<absSrcPath>/locales)`
    localeDirExists: bool)

  /** The separators the model covers: absent, or one character that is not
      regex syntax. */
  predicate SupportedSeparator(baseSeparator: Option<string>) {
    baseSeparator.None? || (|baseSeparator.value| == 1 && IsLiteralSeparator(baseSeparator.value[0]))
  }

  /** `api.config.locale?.baseSeparator` as `getLocaleList` receives it. */
  function ListSeparator(baseSeparator: Option<string>): (s: Option<char>)
    requires SupportedSeparator(baseSeparator)
    ensures IsLiteralSeparator(s.GetOr('-'))
    ensures [s.GetOr('-')] == baseSeparator.GetOr("-")
  {
    if baseSeparator.None? then None else Some(baseSeparator.value[0])
  }

  function Sources(host: PluginHost): LocaleSources {
    LocaleSources(host.srcFiles, host.pagesFiles, host.fileExists,
      AddMetisUILocales(host.applyAddMetisUILocales, host.ssr), host.moduleExists)
  }

  /** `getList()` */
  function LocaleListOf(host: PluginHost): seq<LocaleEntry>
    requires SupportedSeparator(host.locale.baseSeparator)
  {
    GetLocaleList(ListSeparator(host.locale.baseSeparator), Sources(host))
  }

  /** `defaultLocale.split(baseSeparator)` destructured into `[lang, country = ""]`. */
  function LangAndCountry(locale: string, sep: char): (string, string) {
    var parts := Split(locale, sep);
    (parts[0], if |parts| >= 2 then parts[1] else "")
  }

  /** `locale.tsx` */
  datatype LocaleTemplate = LocaleTemplate(
    defaultMetisUILocales: seq<string>,
    metisUI: bool,
    title: bool,
    baseSeparator: string,
    defaultLocale: string,
    defaultLang: string)

  /** `localeExports.ts` */
  datatype LocaleExportsTemplate = LocaleExportsTemplate(
    baseSeparator: string,
    baseNavigator: bool,
    useLocalStorage: bool,
    localeDir: string,
    existLocaleDir: bool,
    localeList: seq<RenderedLocale>,
    metisUI: bool,
    defaultLocale: string)

  /** `SelectLang.tsx` */
  datatype SelectLangTemplate = SelectLangTemplate(
    metisUI: bool,
    localeList: seq<LocaleEntry>,
    showSelectLang: bool,
    metisuiFiles: string)

  datatype GeneratedFiles = GeneratedFiles(
    locale: LocaleTemplate,
    localeExports: LocaleExportsTemplate,
    runtimeTitle: bool,
    selectLang: SelectLangTemplate)

  /** The `onGenerateFiles` hook: the data each template is rendered with. */
  method GenerateFiles(host: PluginHost) returns (out: GeneratedFiles)
    requires SupportedSeparator(host.locale.baseSeparator)
    ensures var o := MergeConfig(host.locale, host.hasMetisUI);
      var list := LocaleListOf(host);
      var defaultLocale := DefaultLocale(host.locale, o.baseSeparator);
      var (lang, country) := LangAndCountry(defaultLocale, o.baseSeparator[0]);
      && out.locale.defaultMetisUILocales ==
           (if |list| == 0 && o.metisui
            then Dedup(host.applyAddMetisUILocales([InitialMetisUILocale(lang, country, host.ssr)], lang, country))
            else [])
      && out.locale.metisUI == o.metisui
      && out.locale.title == (o.title == Some(true) && host.appTitle)
      && out.locale.defaultLocale == defaultLocale && out.locale.defaultLang == defaultLocale
      && out.locale.baseSeparator == o.baseSeparator
      && out.localeExports == LocaleExportsTemplate(o.baseSeparator, o.baseNavigator, o.useLocalStorage,
           "locales", host.localeDirExists, RenderLocaleList(list), o.metisui, defaultLocale)
      && out.runtimeTitle == (o.title == Some(true))
      && out.selectLang == SelectLangTemplate(o.metisui, list, ShowSelectLang(list, o.metisui), MetisUIFiles(host.ssr))
    ensures NoDuplicates(out.locale.defaultMetisUILocales)
    ensures out.locale.defaultMetisUILocales != [] ==> |LocaleListOf(host)| == 0
    ensures var sep := MergeConfig(host.locale, host.hasMetisUI).baseSeparator;
      (host.locale.default.None? || host.locale.default.value == "") && !IsAsciiLetter(sep[0])
        && |LocaleListOf(host)| == 0 && MergeConfig(host.locale, host.hasMetisUI).metisui ==>
      out.locale.defaultMetisUILocales ==
        Dedup(host.applyAddMetisUILocales([InitialMetisUILocale("zh", "CN", host.ssr)], "zh", "CN"))
  {
    var o := MergeConfig(host.locale, host.hasMetisUI);
    var defaultLocale := DefaultLocale(host.locale, o.baseSeparator);
    var localeList := LocaleListOf(host);
    // `.filter((locale) => locale)` keeps every entry: an array is always truthy
    var metisuiLocales := seq(|localeList|, i requires 0 <= i < |localeList| => localeList[i].metisuiLocale);

    var defaultMetisUILocales: seq<string> := [];
    if |metisuiLocales| == 0 && o.metisui {
      var (lang, country) := LangAndCountry(defaultLocale, o.baseSeparator[0]);
      if (host.locale.default.None? || host.locale.default.value == "") && !IsAsciiLetter(o.baseSeparator[0]) {
        DefaultLocaleFallbackSplits(host.locale, o.baseSeparator[0]);
      }
      defaultMetisUILocales := Dedup(AddMetisUILocales(host.applyAddMetisUILocales, host.ssr)(lang, country));
    }

    var title := o.title == Some(true) && host.appTitle;
    var locale := LocaleTemplate(defaultMetisUILocales, o.metisui, title, o.baseSeparator, defaultLocale, defaultLocale);
    var exports := LocaleExportsTemplate(o.baseSeparator, o.baseNavigator, o.useLocalStorage,
      "locales", host.localeDirExists, RenderLocaleList(localeList), o.metisui, defaultLocale);
    var selectLang := SelectLangTemplate(o.metisui, localeList, ShowSelectLang(localeList, o.metisui), MetisUIFiles(host.ssr));
    out := GeneratedFiles(locale, exports, o.title == Some(true), selectLang);
  }
}
