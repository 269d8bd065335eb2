/** Worked examples of the discovery rules on concrete file names and
    listings. */
module LocaleScenarios {
  import opened Wrappers
  import opened Builtins
  import opened LocaleUtils

  /** A well-formed file name in a directory survives under the name built
      from its parts. */
  lemma FileOfJoined(dir: string, lang: string, sepUsed: bool, sep: char, country: Option<string>,
                     dot: char, ext: string, fileExists: string -> bool)
    requires IsLiteralSeparator(sep) && WellFormedParts(lang, country, dot, ext)
    requires sep != '/' && dot != '/'
    requires fileExists(dir + "/" + Spell(lang, sepUsed, sep, country, dot, ext))
    ensures var p := dir + "/" + Spell(lang, sepUsed, sep, country, dot, ext);
      FileOf(p, sep, fileExists) == Some(LocaleFile(NameOf(Captures(lang, country), sep), p))
  {
    var b := Spell(lang, sepUsed, sep, country, dot, ext);
    assert '/' !in b by {
      assert '/' !in lang;
      assert '/' !in country.GetOr("");
      assert '/' !in ext;
    }
    BasenameOfJoin(dir, b);
    MatchLocaleFileNameComplete(lang, sepUsed, sep, country, dot, ext);
  }

  /** `\.` lost its backslash: any character may stand before the extension. */
  lemma AnyCharacterBeforeExtension()
    ensures MatchLocaleFileName("en-US_ts", '-') == Some(Captures("en", Some("US")))
    ensures MatchLocaleFileName("zhXjson", '-') == Some(Captures("zh", None))
  {
    MatchLocaleFileNameComplete("en", true, '-', Some("US"), '_', "ts");
    assert Spell("en", true, '-', Some("US"), '_', "ts") == "en-US_ts";
    MatchLocaleFileNameComplete("zh", false, '-', None, 'X', "json");
    assert Spell("zh", false, '-', None, 'X', "json") == "zhXjson";
  }

  /** The separator is optional: `enUS.ts` is named `en-US` all the same. */
  lemma SeparatorOptional(fileExists: string -> bool)
    requires fileExists("locales/enUS.ts")
    ensures FileOf("locales/enUS.ts", '-', fileExists) == Some(LocaleFile("en-US", "locales/enUS.ts"))
  {
    assert "locales" + "/" + Spell("en", false, '-', Some("US"), '.', "ts") == "locales/enUS.ts";
    FileOfJoined("locales", "en", false, '-', Some("US"), '.', "ts", fileExists);
    assert NameOf(Captures("en", Some("US")), '-') == "en-US";
  }

  /** A name the pattern does not describe is dropped without error. */
  lemma WrongSeparatorDropped(fileExists: string -> bool)
    ensures FileOf("locales/en_US.ts", '-', fileExists) == None
  {
    assert "locales" + "/" + "en_US.ts" == "locales/en_US.ts";
    BasenameOfJoin("locales", "en_US.ts");
    if MatchLocaleFileName("en_US.ts", '-').Some? {
      var sepUsed, dot, ext := MatchLocaleFileNameSound("en_US.ts", '-');
      assert false;
    }
  }

  /** A file without a country: `fr.ts` gives `lang == "fr"`, `country == ""`,
      `name == locale == "fr"`. */
  lemma CountryLessFile(env: LocaleSources) returns (e: LocaleEntry)
    requires env.srcFiles == ["locales/fr.ts"] && env.pagesFiles == []
    requires env.fileExists("locales/fr.ts")
    ensures GetLocaleList(None, env) == [e]
    ensures e.lang == "fr" && e.country == "" && e.name == "fr" && e.locale == "fr"
    ensures e.paths == ["locales/fr.ts"]
  {
    assert "locales" + "/" + Spell("fr", false, '-', None, '.', "ts") == "locales/fr.ts";
    FileOfJoined("locales", "fr", false, '-', None, '.', "ts", env.fileExists);
    assert NameOf(Captures("fr", None), '-') == "fr";
    var f := LocaleFile("fr", "locales/fr.ts");
    var ps := env.srcFiles + env.pagesFiles;
    assert ps == ["locales/fr.ts"] && ps[1..] == [];
    assert DiscoveredFiles('-', env) == [f];
    assert GroupByName([f]) == [LocaleGroup("fr", ["locales/fr.ts"])];
    SplitNoSeparator("fr", '-');
    e := GetLocaleList(None, env)[0];
  }

  /** Each entry carries its group's name and paths. */
  lemma EntriesOfGroups(env: LocaleSources, gs: seq<LocaleGroup>)
    requires GroupByName(DiscoveredFiles('-', env)) == gs
    ensures var r := GetLocaleList(None, env);
      |r| == |gs| && forall i :: 0 <= i < |r| ==> r[i] == Describe(gs[i], '-', env)
  {
  }

  /** The same locale in the source folder and in a page folder: one entry,
      the source folder's path first; another locale gets its own entry. */
  lemma SourceAndPageFolders(env: LocaleSources)
    requires env.srcFiles == ["s/locales/en-US.ts", "s/locales/zh-CN.ts"]
    requires env.pagesFiles == ["p/a/locales/en-US.ts"]
    requires forall p :: env.fileExists(p)
    ensures var r := GetLocaleList(None, env);
      && |r| == 2
      && r[0].name == "en-US" && r[0].paths == ["s/locales/en-US.ts", "p/a/locales/en-US.ts"]
      && r[1].name == "zh-CN" && r[1].paths == ["s/locales/zh-CN.ts"]
  {
    var a := LocaleFile("en-US", "s/locales/en-US.ts");
    var b := LocaleFile("zh-CN", "s/locales/zh-CN.ts");
    var c := LocaleFile("en-US", "p/a/locales/en-US.ts");
    TwoFoldersDiscovered(env, a, b, c);
    var gs := [LocaleGroup("en-US", [a.path, c.path]), LocaleGroup("zh-CN", [b.path])];
    TwoFoldersGrouped(a, b, c);
    EntriesOfGroups(env, gs);
  }

  lemma TwoFoldersDiscovered(env: LocaleSources, a: LocaleFile, b: LocaleFile, c: LocaleFile)
    requires env.srcFiles == ["s/locales/en-US.ts", "s/locales/zh-CN.ts"]
    requires env.pagesFiles == ["p/a/locales/en-US.ts"]
    requires forall p :: env.fileExists(p)
    requires a == LocaleFile("en-US", "s/locales/en-US.ts")
    requires b == LocaleFile("zh-CN", "s/locales/zh-CN.ts")
    requires c == LocaleFile("en-US", "p/a/locales/en-US.ts")
    ensures DiscoveredFiles('-', env) == [a, b, c]
  {
    assert "s/locales" + "/" + "en" + "-" + "US" + ".ts" == a.path;
    assert "s/locales" + "/" + "zh" + "-" + "CN" + ".ts" == b.path;
    assert "p/a/locales" + "/" + "en" + "-" + "US" + ".ts" == c.path;
    assert "en" + "-" + "US" == "en-US" && "zh" + "-" + "CN" == "zh-CN";
    HyphenatedFile("s/locales", "en", "US", env.fileExists);
    HyphenatedFile("s/locales", "zh", "CN", env.fileExists);
    HyphenatedFile("p/a/locales", "en", "US", env.fileExists);
    var ps := env.srcFiles + env.pagesFiles;
    assert ps == [a.path, b.path, c.path];
    ThreeSurvive(ps, env.fileExists, a, b, c);
  }

  lemma ThreeSurvive(ps: seq<string>, fileExists: string -> bool, a: LocaleFile, b: LocaleFile, c: LocaleFile)
    requires ps == [a.path, b.path, c.path]
    requires FileOf(a.path, '-', fileExists) == Some(a)
    requires FileOf(b.path, '-', fileExists) == Some(b)
    requires FileOf(c.path, '-', fileExists) == Some(c)
    ensures LocaleFiles(ps, '-', fileExists) == [a, b, c]
  {
    assert ps[1..] == [b.path, c.path] && ps[1..][1..] == [c.path] && ps[1..][1..][1..] == [];
    assert LocaleFiles(ps[1..][1..], '-', fileExists) == [c];
  }

  /** `<dir>/<ll>-<CC>.ts` is named `<ll>-<CC>`. */
  lemma HyphenatedFile(dir: string, lang: string, country: string, fileExists: string -> bool)
    requires IsLang(lang) && IsCountry(country)
    requires fileExists(dir + "/" + lang + "-" + country + ".ts")
    ensures var p := dir + "/" + lang + "-" + country + ".ts";
      FileOf(p, '-', fileExists) == Some(LocaleFile(lang + "-" + country, p))
  {
    assert Spell(lang, true, '-', Some(country), '.', "ts") == lang + "-" + country + ".ts";
    assert dir + "/" + (lang + "-" + country + ".ts") == dir + "/" + lang + "-" + country + ".ts";
    FileOfJoined(dir, lang, true, '-', Some(country), '.', "ts", fileExists);
    assert NameOf(Captures(lang, Some(country)), '-') == lang + "-" + country;
  }

  lemma TwoFoldersGrouped(a: LocaleFile, b: LocaleFile, c: LocaleFile)
    requires a.name == "en-US" && b.name == "zh-CN" && c.name == "en-US"
    ensures GroupByName([a, b, c]) == [LocaleGroup("en-US", [a.path, c.path]), LocaleGroup("zh-CN", [b.path])]
  {
    assert "en-US" != "zh-CN" by {
      assert "en-US"[0] != "zh-CN"[0];
    }
    assert [a, b, c][..2] == [a, b] && [a, b][..1] == [a] && [a][..0] == [];
    var g1 := [LocaleGroup("en-US", [a.path])];
    assert GroupByName([a]) == g1;
    assert g1[1..] == [];
    var g2 := [LocaleGroup("en-US", [a.path]), LocaleGroup("zh-CN", [b.path])];
    assert GroupByName([a, b]) == AddToGroups(g1, b) == g2;
    assert g2[1..] == [LocaleGroup("zh-CN", [b.path])];
    assert [a, b, c][..|[a, b, c]| - 1] == [a, b];
    assert GroupByName([a, b, c]) == AddToGroups(g2, c);
    assert [a.path] + [c.path] == [a.path, c.path];
  }

  /** The resolver's duplicates are dropped, then missing modules. */
  lemma UiLocalesDeduplicated(env: LocaleSources)
    requires env.srcFiles == ["locales/en-US.ts"] && env.pagesFiles == []
    requires env.fileExists("locales/en-US.ts")
    requires env.addMetisUILocales("en", "US") == ["metis-ui/es/locale/en_US", "metis-ui/es/locale/en_US", "x"]
    requires env.moduleExists("metis-ui/es/locale/en_US") && !env.moduleExists("x")
    ensures var r := GetLocaleList(None, env);
      |r| == 1 && r[0].metisuiLocale == ["metis-ui/es/locale/en_US"]
  {
    assert "locales" + "/" + "en" + "-" + "US" + ".ts" == "locales/en-US.ts";
    assert "en" + "-" + "US" == "en-US";
    HyphenatedFile("locales", "en", "US", env.fileExists);
    var f := LocaleFile("en-US", "locales/en-US.ts");
    OneFileDiscovered(env, f);
    var g := LocaleGroup("en-US", [f.path]);
    assert GroupByName([f]) == [g];
    EntriesOfGroups(env, [g]);
    UiLocalesOfEnUs(env, g);
  }

  lemma OneFileDiscovered(env: LocaleSources, f: LocaleFile)
    requires env.srcFiles == [f.path] && env.pagesFiles == []
    requires FileOf(f.path, '-', env.fileExists) == Some(f)
    ensures DiscoveredFiles('-', env) == [f]
  {
    var ps := env.srcFiles + env.pagesFiles;
    assert ps == [f.path] && ps[1..] == [];
  }

  lemma UiLocalesOfEnUs(env: LocaleSources, g: LocaleGroup)
    requires g.name == "en-US"
    requires env.addMetisUILocales("en", "US") == ["metis-ui/es/locale/en_US", "metis-ui/es/locale/en_US", "x"]
    requires env.moduleExists("metis-ui/es/locale/en_US") && !env.moduleExists("x")
    ensures Describe(g, '-', env).metisuiLocale == ["metis-ui/es/locale/en_US"]
  {
    NameSplits("en", "US", '-');
    assert "en" + (if "US" == "" then [] else ['-'] + "US") == "en-US";
    assert Split(g.name, '-') == ["en", "US"];
    var u := "metis-ui/es/locale/en_US";
    assert u != "x";
    DedupTwice(u, "x");
    assert [u, "x"][1..] == ["x"] && ["x"][1..] == [];
    assert Filter(["x"], env.moduleExists) == [];
    assert Filter([u, "x"], env.moduleExists) == [u];
    var parts := Split(g.name, '-');
    assert env.addMetisUILocales(parts[0], parts[1]) == [u, u, "x"];
  }

  lemma DedupTwice(u: string, x: string)
    requires u != x
    ensures Dedup([u, u, x]) == [u, x]
  {
    assert [u, u, x][..2] == [u, u] && [u, u][..1] == [u];
  }

  /** No locale folder: nothing listed, nothing reported. */
  lemma NoLocaleFolder(env: LocaleSources)
    requires env.srcFiles == [] && env.pagesFiles == []
    ensures GetLocaleList(None, env) == []
  {
    assert env.srcFiles + env.pagesFiles == [];
  }
}
