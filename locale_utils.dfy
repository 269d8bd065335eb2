/** Locale-file discovery and naming (src/utils/localeUtils.ts).

    Everything the source reads from the outside world is a parameter here:
    the two glob listings (already joined onto their root and slash-normalised),
    the `existsSync` probe, the UI-locale resolver and the `require.resolve`
    probe. `getLocaleList` is then a pure function; its `Promise.all` only
    preserves the order of the groups, which a sequential map does too. */
module LocaleUtils {
  import opened Wrappers
  import opened Builtins

  // ---------------------------------------------------------------------------
  // Characters and case

  predicate IsLowerAscii(c: char) { 'a' <= c <= 'z' }
  predicate IsUpperAscii(c: char) { 'A' <= c <= 'Z' }
  predicate IsAsciiLetter(c: char) { IsLowerAscii(c) || IsUpperAscii(c) }

  /** `[a-z]{2}` */
  predicate IsLang(s: string) { |s| == 2 && IsLowerAscii(s[0]) && IsLowerAscii(s[1]) }
  /** `[A-Z]{2}` */
  predicate IsCountry(s: string) { |s| == 2 && IsUpperAscii(s[0]) && IsUpperAscii(s[1]) }

  function UpperAscii(c: char): (u: char)
    ensures !IsLowerAscii(u)
    ensures IsLowerAscii(c) ==> IsUpperAscii(u) && u as int == c as int - 32
    ensures !IsLowerAscii(c) ==> u == c
  {
    if IsLowerAscii(c) then (c as int - 32) as char else c
  }

  /** `toLocaleUpperCase`, on the ASCII letters only. */
  function UpperCase(s: string): (r: string)
    ensures |r| == |s|
    ensures forall i :: 0 <= i < |s| ==> r[i] == UpperAscii(s[i])
  {
    if s == [] then [] else [UpperAscii(s[0])] + UpperCase(s[1..])
  }

  // ---------------------------------------------------------------------------
  // getMetisUILocale

  /** The UI library's locale module name: `lang`, `_`, then the upper-cased
      country, or the upper-cased language when the country is empty
      (`country || lang`). */
  function GetMetisUILocale(lang: string, country: string): (r: string)
    ensures |r| == |lang| + 1 + |if country == "" then lang else country|
    ensures r[..|lang|] == lang && r[|lang|] == '_'
    ensures forall i :: |lang| < i < |r| ==> !IsLowerAscii(r[i])
    ensures forall i :: |lang| < i < |r| ==>
      r[i] == UpperAscii((if country == "" then lang else country)[i - |lang| - 1])
  {
    lang + "_" + UpperCase(if country == "" then lang else country)
  }

  /** Upper-casing leaves an upper-case country code unchanged. */
  lemma UpperCaseOfCountry(s: string)
    requires IsCountry(s)
    ensures UpperCase(s) == s
  {
    assert UpperCase(s)[0] == s[0] && UpperCase(s)[1] == s[1];
  }

  /** For the names discovery produces, the UI locale is `ll_CC`, or `ll_LL`
      without a country, and splitting it on `_` gives the two halves back. */
  lemma {:induction false} MetisUILocaleOfDiscoveredName(lang: string, country: string)
    requires IsLang(lang) && (country == "" || IsCountry(country))
    ensures GetMetisUILocale(lang, country) ==
      lang + "_" + (if country == "" then UpperCase(lang) else country)
    ensures IsCountry(GetMetisUILocale(lang, country)[3..])
    ensures Split(GetMetisUILocale(lang, country), '_') ==
      [lang, if country == "" then UpperCase(lang) else country]
  {
    var suffix := if country == "" then UpperCase(lang) else country;
    if country != "" {
      UpperCaseOfCountry(country);
    }
    assert GetMetisUILocale(lang, country) == lang + "_" + suffix;
    assert GetMetisUILocale(lang, country)[3..] == suffix;
    assert '_' !in lang && '_' !in suffix;
    SplitJoin([lang, suffix], '_');
    assert Join([lang, suffix], '_') == lang + "_" + suffix;
  }

  // ---------------------------------------------------------------------------
  // The file-name pattern `^([a-z]{2})${separator}?([A-Z]{2})?\.(js|json|ts)$`
  //
  // The pattern is written in a template literal, where `\.` is just `.`: the
  // character before the extension is any character `.` matches. The separator
  // is spliced in unescaped and `?` applies to it; it is modelled as one
  // character that is not regex syntax and is one UTF-16 code unit (a
  // character outside the Basic Multilingual Plane is two units, and `?`
  // would then apply to its low surrogate only).

  predicate IsLiteralSeparator(c: char) { c !in "\\^$.|?*+()[]{}" && c as int <= 0xFFFF }

  /** What `.` matches in a RegExp without the `s` and `u` flags: one UTF-16
      code unit other than a line terminator, so never a character outside
      the Basic Multilingual Plane. */
  predicate IsDotChar(c: char) {
    c != '\n' && c != '\r' && c != '\U{2028}' && c != '\U{2029}' && c as int <= 0xFFFF
  }

  predicate IsExtension(e: string) { e == "js" || e == "json" || e == "ts" }

  /** `.(js|json|ts)$` */
  predicate MatchesTail(t: string) { |t| >= 1 && IsDotChar(t[0]) && IsExtension(t[1..]) }

  /** The two capture groups of a successful match; group 2 is `undefined`
      when the country did not participate. */
  datatype Captures = Captures(lang: string, country: Option<string>)

  /** `([A-Z]{2})?` then the tail, trying the greedy choice first as the
      backtracking engine does. `Some(group2)` on success. */
  function MatchCountryAndTail(t: string): Option<Option<string>> {
    if |t| >= 2 && IsCountry(t[..2]) && MatchesTail(t[2..]) then Some(Some(t[..2]))
    else if MatchesTail(t) then Some(None)
    else None
  }

  /** `localeFileMath.exec(fileName)`: the language, then the separator taken
      if present and the rest matches, otherwise skipped. */
  function MatchLocaleFileName(b: string, sep: char): Option<Captures>
    requires IsLiteralSeparator(sep)
  {
    if |b| < 2 || !IsLang(b[..2]) then None
    else
      var rest := b[2..];
      var withSep := if |rest| >= 1 && rest[0] == sep then MatchCountryAndTail(rest[1..]) else None;
      var m := if withSep.Some? then withSep else MatchCountryAndTail(rest);
      if m.Some? then Some(Captures(b[..2], m.value)) else None
  }

  /** A file name assembled from its parts: language, optional separator,
      optional country, the one character `.` stands for, extension. */
  function Spell(lang: string, sepUsed: bool, sep: char, country: Option<string>, dot: char, ext: string): string {
    lang + (if sepUsed then [sep] else []) + country.GetOr("") + [dot] + ext
  }

  predicate WellFormedParts(lang: string, country: Option<string>, dot: char, ext: string) {
    IsLang(lang) && (country.Some? ==> IsCountry(country.value)) && IsDotChar(dot) && IsExtension(ext)
  }

  /** Every name the pattern describes matches, and the groups are exactly
      the parts it was built from, whichever way the engine backtracks. */
  lemma MatchLocaleFileNameComplete(lang: string, sepUsed: bool, sep: char, country: Option<string>, dot: char, ext: string)
    requires IsLiteralSeparator(sep)
    requires WellFormedParts(lang, country, dot, ext)
    ensures MatchLocaleFileName(Spell(lang, sepUsed, sep, country, dot, ext), sep) == Some(Captures(lang, country))
  {
    var b := Spell(lang, sepUsed, sep, country, dot, ext);
    var c := country.GetOr("");
    assert b[..2] == lang;
    var rest := b[2..];
    if sepUsed {
      assert rest == [sep] + (c + [dot] + ext);
      TailAfterLang(country, dot, ext);
    } else {
      assert rest == c + [dot] + ext;
      TailAfterLang(country, dot, ext);
      if country.Some? {
        if rest[0] == sep {
          assert rest[1..] == [c[1], dot] + ext;
          NoCountryAfterOneCapital(c[1], dot, ext);
        }
      } else if rest[0] == sep {
        assert rest[1..] == ext;
        NoTailInExtension(ext);
      }
    }
  }

  /** What follows the language and separator matches with the captured
      country, or with none. */
  lemma TailAfterLang(country: Option<string>, dot: char, ext: string)
    requires (country.Some? ==> IsCountry(country.value)) && IsDotChar(dot) && IsExtension(ext)
    ensures MatchCountryAndTail(country.GetOr("") + [dot] + ext) == Some(country)
  {
    var t := country.GetOr("") + [dot] + ext;
    if country.Some? {
      assert t[..2] == country.value && t[2..] == [dot] + ext;
    } else {
      assert t[1..] == ext;
    }
    assert ([dot] + ext)[1..] == ext;
  }

  /** An extension alone is no tail: it has no character before `js`,
      `json` or `ts`. */
  lemma NoTailInExtension(ext: string)
    requires IsExtension(ext)
    ensures MatchCountryAndTail(ext) == None
  {
  }

  /** One capital, the dot character and an extension leave no room for a
      country code followed by a tail. */
  lemma NoCountryAfterOneCapital(u: char, dot: char, ext: string)
    requires IsExtension(ext)
    ensures MatchCountryAndTail([u, dot] + ext) == None
  {
    var t := [u, dot] + ext;
    assert t[2..] == ext && t[1..] == [dot] + ext;
    assert ext[2..] == [] || ext[2..] == "on";
  }

  /** Every match is such a name: the converse of the lemma above. */
  lemma MatchLocaleFileNameSound(b: string, sep: char) returns (sepUsed: bool, dot: char, ext: string)
    requires IsLiteralSeparator(sep)
    requires MatchLocaleFileName(b, sep).Some?
    ensures var c := MatchLocaleFileName(b, sep).value;
      WellFormedParts(c.lang, c.country, dot, ext) && b == Spell(c.lang, sepUsed, sep, c.country, dot, ext)
  {
    var t;
    sepUsed, t := MatchLocaleFileNameSteps(b, sep);
    var country := MatchCountryAndTail(t).value;
    dot, ext := CountryAndTailSound(t);
    SpellOfPieces(b, sepUsed, sep, t, country, dot, ext);
  }

  /** How a match is found: the language, the separator when it was taken,
      and a rest on which the country-and-tail match succeeds. */
  lemma MatchLocaleFileNameSteps(b: string, sep: char) returns (sepUsed: bool, t: string)
    requires IsLiteralSeparator(sep)
    requires MatchLocaleFileName(b, sep).Some?
    ensures |b| >= 2 && IsLang(b[..2])
    ensures b[2..] == (if sepUsed then [sep] else []) + t
    ensures MatchCountryAndTail(t).Some?
    ensures MatchLocaleFileName(b, sep).value == Captures(b[..2], MatchCountryAndTail(t).value)
  {
    var rest := b[2..];
    var withSep := if |rest| >= 1 && rest[0] == sep then MatchCountryAndTail(rest[1..]) else None;
    sepUsed := withSep.Some?;
    t := if sepUsed then rest[1..] else rest;
    if sepUsed {
      assert rest == [sep] + t;
    }
  }

  /** Putting the pieces of a match back together spells the file name. */
  lemma SpellOfPieces(b: string, sepUsed: bool, sep: char, t: string, country: Option<string>, dot: char, ext: string)
    requires |b| >= 2
    requires b[2..] == (if sepUsed then [sep] else []) + t
    requires t == country.GetOr("") + [dot] + ext
    ensures b == Spell(b[..2], sepUsed, sep, country, dot, ext)
  {
    assert b == b[..2] + b[2..];
  }

  /** A successful match of the country and tail is the captured country,
      one dot character and an extension. */
  lemma CountryAndTailSound(t: string) returns (dot: char, ext: string)
    requires MatchCountryAndTail(t).Some?
    ensures var country := MatchCountryAndTail(t).value;
      && (country.Some? ==> IsCountry(country.value))
      && IsDotChar(dot) && IsExtension(ext)
      && t == country.GetOr("") + [dot] + ext
  {
    var country := MatchCountryAndTail(t).value;
    var tail := if country.Some? then t[2..] else t;
    dot, ext := tail[0], tail[1..];
    assert tail == [dot] + ext;
    if country.Some? {
      assert t == t[..2] + tail;
    }
  }

  // ---------------------------------------------------------------------------
  // Candidate files

  /** `path.basename` of a slash-normalised path: trailing slashes are
      dropped, then what follows the last `/` is kept. */
  function Basename(p: string): (b: string)
    ensures '/' !in b
  {
    LastSegment(TrimTrailingSlashes(p))
  }

  function TrimTrailingSlashes(p: string): (r: string)
    ensures |r| <= |p|
  {
    if p != [] && p[|p| - 1] == '/' then TrimTrailingSlashes(p[..|p| - 1]) else p
  }

  function LastSegment(p: string): (b: string)
    ensures '/' !in b
  {
    if p == [] || p[|p| - 1] == '/' then [] else LastSegment(p[..|p| - 1]) + [p[|p| - 1]]
  }

  /** A file name joined onto a directory is its own base name. */
  lemma {:induction false} BasenameOfJoin(dir: string, name: string)
    requires name != [] && '/' !in name
    ensures Basename(dir + "/" + name) == name
  {
    LastSegmentAfterSlash(dir + "/", name);
  }

  lemma {:induction false} LastSegmentAfterSlash(dir: string, name: string)
    requires dir != [] && dir[|dir| - 1] == '/' && '/' !in name
    ensures LastSegment(dir + name) == name
  {
    if name == [] {
      assert dir + name == dir;
    } else {
      var p := dir + name;
      assert p[..|p| - 1] == dir + name[..|name| - 1];
      LastSegmentAfterSlash(dir, name[..|name| - 1]);
      assert name == name[..|name| - 1] + [name[|name| - 1]];
    }
  }

  /** A surviving file and the name it is grouped under. */
  datatype LocaleFile = LocaleFile(name: string, path: string)

  /** `fileInfo.join(separator)` after dropping the undefined group: the
      language alone, or language, separator, country. */
  function NameOf(c: Captures, sep: char): string {
    c.lang + (if c.country.Some? then [sep] + c.country.value else [])
  }

  /** One candidate path through the filter and the naming map. */
  function FileOf(p: string, sep: char, fileExists: string -> bool): Option<LocaleFile>
    requires IsLiteralSeparator(sep)
  {
    match MatchLocaleFileName(Basename(p), sep)
    case Some(c) => if fileExists(p) then Some(LocaleFile(NameOf(c, sep), p)) else None
    case None => None
  }

  /** The filter and map over the concatenated listings: a path survives iff
      its base name matches and it exists; nothing else is reported. */
  function LocaleFiles(ps: seq<string>, sep: char, fileExists: string -> bool): (fs: seq<LocaleFile>)
    requires IsLiteralSeparator(sep)
    ensures forall f :: f in fs <==> f.path in ps && FileOf(f.path, sep, fileExists) == Some(f)
    ensures |fs| <= |ps|
  {
    if ps == [] then []
    else
      var rest := LocaleFiles(ps[1..], sep, fileExists);
      assert forall q :: q in ps <==> q == ps[0] || q in ps[1..];
      match FileOf(ps[0], sep, fileExists)
      case Some(f) => [f] + rest
      case None => rest
  }

  lemma {:induction false} LocaleFilesAppend(a: seq<string>, b: seq<string>, sep: char, fileExists: string -> bool)
    requires IsLiteralSeparator(sep)
    ensures LocaleFiles(a + b, sep, fileExists) == LocaleFiles(a, sep, fileExists) + LocaleFiles(b, sep, fileExists)
  {
    if a == [] {
      assert a + b == b;
    } else {
      assert (a + b)[1..] == a[1..] + b;
      LocaleFilesAppend(a[1..], b, sep, fileExists);
    }
  }

  /** A surviving file exists, and its name is its captured language, plus
      separator and country only when a country was captured. */
  lemma SurvivingFileName(p: string, sep: char, fileExists: string -> bool) returns (lang: string, country: string)
    requires IsLiteralSeparator(sep)
    requires FileOf(p, sep, fileExists).Some?
    ensures fileExists(p) && FileOf(p, sep, fileExists).value.path == p
    ensures IsLang(lang) && (country == "" || IsCountry(country))
    ensures FileOf(p, sep, fileExists).value.name == lang + (if country == "" then [] else [sep] + country)
    ensures var c := MatchLocaleFileName(Basename(p), sep).value;
      lang == c.lang && country == c.country.GetOr("")
  {
    var c := MatchLocaleFileName(Basename(p), sep).value;
    var sepUsed, dot, ext := MatchLocaleFileNameSound(Basename(p), sep);
    lang, country := c.lang, c.country.GetOr("");
  }

  // ---------------------------------------------------------------------------
  // Grouping: lodash.groupBy(localeFiles, "name")

  datatype LocaleGroup = LocaleGroup(name: string, paths: seq<string>)

  function Names(fs: seq<LocaleFile>): (ns: seq<string>)
    ensures |ns| == |fs| && forall i :: 0 <= i < |fs| ==> ns[i] == fs[i].name
  {
    seq(|fs|, i requires 0 <= i < |fs| => fs[i].name)
  }

  function PathsOf(fs: seq<LocaleFile>): (ps: seq<string>)
    ensures |ps| == |fs| && forall i :: 0 <= i < |fs| ==> ps[i] == fs[i].path
  {
    seq(|fs|, i requires 0 <= i < |fs| => fs[i].path)
  }

  function GroupNames(gs: seq<LocaleGroup>): (ns: seq<string>)
    ensures |ns| == |gs| && forall i :: 0 <= i < |gs| ==> ns[i] == gs[i].name
  {
    seq(|gs|, i requires 0 <= i < |gs| => gs[i].name)
  }

  /** Reference definition of one group's paths: those of the files carrying
      that name, in scan order. */
  function PathsNamed(fs: seq<LocaleFile>, n: string): seq<string> {
    if fs == [] then []
    else PathsNamed(fs[..|fs| - 1], n) + (if fs[|fs| - 1].name == n then [fs[|fs| - 1].path] else [])
  }

  lemma {:induction false} PathsNamedAppend(a: seq<LocaleFile>, b: seq<LocaleFile>, n: string)
    ensures PathsNamed(a + b, n) == PathsNamed(a, n) + PathsNamed(b, n)
  {
    if b == [] {
      assert a + b == a;
    } else {
      var ab := a + b;
      assert ab[..|ab| - 1] == a + b[..|b| - 1];
      PathsNamedAppend(a, b[..|b| - 1], n);
    }
  }

  lemma {:induction false} PathsNamedAbsent(fs: seq<LocaleFile>, n: string)
    requires n !in Names(fs)
    ensures PathsNamed(fs, n) == []
  {
    if fs != [] {
      var p := fs[..|fs| - 1];
      assert Names(p) == Names(fs)[..|fs| - 1];
      assert Names(fs)[|fs| - 1] != n;
      PathsNamedAbsent(p, n);
    }
  }

  /** The object key for `f.name` gets `f.path` pushed onto its array, or is
      created after every existing key. */
  function AddToGroups(gs: seq<LocaleGroup>, f: LocaleFile): seq<LocaleGroup> {
    if gs == [] then [LocaleGroup(f.name, [f.path])]
    else if gs[0].name == f.name then [LocaleGroup(gs[0].name, gs[0].paths + [f.path])] + gs[1..]
    else [gs[0]] + AddToGroups(gs[1..], f)
  }

  /** `lodash.groupBy` as its left-to-right scan; the groups' order is the
      keys' insertion order (no name is a numeric key, which objects would
      order first). */
  function GroupByName(fs: seq<LocaleFile>): seq<LocaleGroup> {
    if fs == [] then [] else AddToGroups(GroupByName(fs[..|fs| - 1]), fs[|fs| - 1])
  }

  lemma {:induction false} AddToGroupsShape(gs: seq<LocaleGroup>, f: LocaleFile)
    requires NoDuplicates(GroupNames(gs))
    ensures f.name !in GroupNames(gs) ==> AddToGroups(gs, f) == gs + [LocaleGroup(f.name, [f.path])]
    ensures f.name in GroupNames(gs) ==>
      |AddToGroups(gs, f)| == |gs| &&
      (forall i :: 0 <= i < |gs| ==>
         AddToGroups(gs, f)[i] == (if gs[i].name == f.name then LocaleGroup(gs[i].name, gs[i].paths + [f.path]) else gs[i]))
  {
    if gs != [] {
      assert GroupNames(gs[1..]) == GroupNames(gs)[1..];
      if gs[0].name != f.name {
        AddToGroupsShape(gs[1..], f);
        assert f.name in GroupNames(gs) <==> f.name in GroupNames(gs[1..]);
      } else {
        forall i | 1 <= i < |gs| ensures gs[i].name != f.name {
          assert GroupNames(gs)[i] != GroupNames(gs)[0];
        }
      }
    }
  }

  /** The reference grouping: one group per distinct name, in first-encounter
      order, holding the paths with that name. */
  function SpecGroups(fs: seq<LocaleFile>): seq<LocaleGroup> {
    var ks := Dedup(Names(fs));
    seq(|ks|, i requires 0 <= i < |ks| => LocaleGroup(ks[i], PathsNamed(fs, ks[i])))
  }

  /** The scan that `lodash.groupBy` performs builds exactly the reference
      grouping. */
  lemma {:induction false} GroupByNameIsSpec(fs: seq<LocaleFile>)
    ensures GroupByName(fs) == SpecGroups(fs)
  {
    if fs != [] {
      var p, f := fs[..|fs| - 1], fs[|fs| - 1];
      GroupByNameIsSpec(p);
      SpecGroupsSnoc(p, f);
      assert p + [f] == fs;
    }
  }

  /** One more file either extends the group of its name or opens a new last
      group. */
  lemma SpecGroupsSnoc(p: seq<LocaleFile>, f: LocaleFile)
    ensures SpecGroups(p + [f]) == AddToGroups(SpecGroups(p), f)
  {
    var fs := p + [f];
    var ns := Names(fs);
    assert ns[..|ns| - 1] == Names(p);
    assert fs[..|fs| - 1] == p;
    assert GroupNames(SpecGroups(p)) == Dedup(Names(p));
    AddToGroupsShape(SpecGroups(p), f);
    if f.name !in Dedup(Names(p)) {
      SpecGroupsSnocNew(p, f);
    } else {
      SpecGroupsSnocKnown(p, f);
    }
  }

  /** A file with a new name opens a group at the end. */
  lemma SpecGroupsSnocNew(p: seq<LocaleFile>, f: LocaleFile)
    requires f.name !in Dedup(Names(p))
    requires Names(p + [f]) == Names(p) + [f.name]
    ensures SpecGroups(p + [f]) == SpecGroups(p) + [LocaleGroup(f.name, [f.path])]
  {
    var fs := p + [f];
    var kp := Dedup(Names(p));
    var ks := Dedup(Names(fs));
    assert ks == kp + [f.name];
    PathsNamedAbsent(p, f.name);
    var target := SpecGroups(fs);
    var r := SpecGroups(p) + [LocaleGroup(f.name, [f.path])];
    forall i | 0 <= i < |r| ensures r[i] == target[i] {
      if i < |kp| {
        assert ks[i] == kp[i];
      }
    }
  }

  /** A file with a known name adds its path to that group only. */
  lemma SpecGroupsSnocKnown(p: seq<LocaleFile>, f: LocaleFile)
    requires f.name in Dedup(Names(p))
    requires Names(p + [f]) == Names(p) + [f.name]
    ensures var gs := SpecGroups(p);
      var target := SpecGroups(p + [f]);
      |target| == |gs| &&
      forall i :: 0 <= i < |gs| ==>
        target[i] == (if gs[i].name == f.name then LocaleGroup(gs[i].name, gs[i].paths + [f.path]) else gs[i])
  {
    var fs := p + [f];
    var kp := Dedup(Names(p));
    assert Dedup(Names(fs)) == kp;
  }

  /** All the paths of a list of groups, group after group. */
  function AllPaths(gs: seq<LocaleGroup>): seq<string> {
    if gs == [] then [] else gs[0].paths + AllPaths(gs[1..])
  }

  lemma {:induction false} AddToGroupsPaths(gs: seq<LocaleGroup>, f: LocaleFile)
    ensures multiset(AllPaths(AddToGroups(gs, f))) == multiset(AllPaths(gs)) + multiset{f.path}
  {
    if gs != [] && gs[0].name != f.name {
      AddToGroupsPaths(gs[1..], f);
      assert AddToGroups(gs, f)[1..] == AddToGroups(gs[1..], f);
    } else if gs != [] {
      assert AddToGroups(gs, f)[1..] == gs[1..];
    }
  }

  /** Grouping loses no path and invents none. */
  lemma {:induction false} GroupByNameKeepsPaths(fs: seq<LocaleFile>)
    ensures multiset(AllPaths(GroupByName(fs))) == multiset(PathsOf(fs))
  {
    if fs != [] {
      var p, f := fs[..|fs| - 1], fs[|fs| - 1];
      GroupByNameKeepsPaths(p);
      AddToGroupsPaths(GroupByName(p), f);
      assert GroupByName(fs) == AddToGroups(GroupByName(p), f);
      PathsOfSnoc(fs);
      assert multiset(PathsOf(fs)) == multiset(PathsOf(p)) + multiset{f.path};
    }
  }

  lemma PathsOfSnoc(fs: seq<LocaleFile>)
    requires fs != []
    ensures PathsOf(fs) == PathsOf(fs[..|fs| - 1]) + [fs[|fs| - 1].path]
  {
  }

  // ---------------------------------------------------------------------------
  // getLocaleList

  datatype LocaleEntry = LocaleEntry(
    lang: string,
    name: string,
    locale: string,
    country: string,
    metisuiLocale: seq<string>,
    paths: seq<string>)

  /** What getLocaleList reads from the outside world. */
  datatype LocaleSources = LocaleSources(
    // `*.{ts,js,json}` directly in `<absSrcPath>/<localeFolder>`, joined and normalised
    srcFiles: seq<string>,
    // `**/<localeFolder>/*.{ts,js,json}` under `absPagesPath`, joined and normalised
    pagesFiles: seq<string>,
    // `existsSync`
    fileExists: string -> bool,
    // the `addMetisUILocales` option
    addMetisUILocales: (string, string) -> seq<string>,
    // `modulesHasLocale`: `require.resolve` succeeds; a failure is `false`
    moduleExists: string -> bool)

  /** The surviving files, source folder first. */
  function DiscoveredFiles(sep: char, env: LocaleSources): seq<LocaleFile>
    requires IsLiteralSeparator(sep)
  {
    LocaleFiles(env.srcFiles + env.pagesFiles, sep, env.fileExists)
  }

  /** One group becomes one entry: `name.split(separator)` destructured into
      `[lang, country = ""]`, the pieces re-joined with `-`, and the resolver's
      candidates de-duplicated then kept only where the module resolves. */
  function Describe(g: LocaleGroup, sep: char, env: LocaleSources): LocaleEntry {
    var parts := Split(g.name, sep);
    var lang := parts[0];
    var country := if |parts| >= 2 then parts[1] else "";
    LocaleEntry(lang, g.name, Join(parts, '-'), country,
      Filter(Dedup(env.addMetisUILocales(lang, country)), env.moduleExists), g.paths)
  }

  function GetLocaleList(separator: Option<char>, env: LocaleSources): seq<LocaleEntry>
    requires IsLiteralSeparator(separator.GetOr('-'))
  {
    var sep := separator.GetOr('-');
    var groups := GroupByName(DiscoveredFiles(sep, env));
    seq(|groups|, i requires 0 <= i < |groups| => Describe(groups[i], sep, env))
  }

  function EntryNames(es: seq<LocaleEntry>): (ns: seq<string>)
    ensures |ns| == |es| && forall i :: 0 <= i < |es| ==> ns[i] == es[i].name
  {
    seq(|es|, i requires 0 <= i < |es| => es[i].name)
  }

  /** The list and the reference grouping line up entry by entry. */
  lemma GetLocaleListGroups(separator: Option<char>, env: LocaleSources)
    requires IsLiteralSeparator(separator.GetOr('-'))
    ensures var sep := separator.GetOr('-');
      var gs := SpecGroups(DiscoveredFiles(sep, env));
      var r := GetLocaleList(separator, env);
      |r| == |gs| && forall i :: 0 <= i < |r| ==> r[i] == Describe(gs[i], sep, env)
  {
    GroupByNameIsSpec(DiscoveredFiles(separator.GetOr('-'), env));
  }

  /** One entry per distinct name, names pairwise distinct, in the order the
      names were first met in the scan. */
  lemma GetLocaleListNames(separator: Option<char>, env: LocaleSources)
    requires IsLiteralSeparator(separator.GetOr('-'))
    ensures var files := DiscoveredFiles(separator.GetOr('-'), env);
      var names := EntryNames(GetLocaleList(separator, env));
      && NoDuplicates(names)
      && (forall n :: n in names <==> n in Names(files))
      && InFirstOccurrenceOrder(names, Names(files))
  {
    var files := DiscoveredFiles(separator.GetOr('-'), env);
    GetLocaleListGroups(separator, env);
    assert EntryNames(GetLocaleList(separator, env)) == Dedup(Names(files));
    DedupFirstOccurrenceOrder(Names(files));
  }

  /** Each entry lists every surviving path with its name in scan order, the
      source folder's before the pages'. */
  lemma GetLocaleListPaths(separator: Option<char>, env: LocaleSources)
    requires IsLiteralSeparator(separator.GetOr('-'))
    ensures var sep := separator.GetOr('-');
      var r := GetLocaleList(separator, env);
      forall i :: 0 <= i < |r| ==>
        r[i].paths == PathsNamed(LocaleFiles(env.srcFiles, sep, env.fileExists), r[i].name)
                    + PathsNamed(LocaleFiles(env.pagesFiles, sep, env.fileExists), r[i].name)
  {
    var sep := separator.GetOr('-');
    GetLocaleListGroups(separator, env);
    var a := LocaleFiles(env.srcFiles, sep, env.fileExists);
    var b := LocaleFiles(env.pagesFiles, sep, env.fileExists);
    LocaleFilesAppend(env.srcFiles, env.pagesFiles, sep, env.fileExists);
    forall n ensures PathsNamed(a + b, n) == PathsNamed(a, n) + PathsNamed(b, n) {
      PathsNamedAppend(a, b, n);
    }
  }

  /** `locale` is the name with every separator turned into `-`, whatever the
      separator is. */
  lemma GetLocaleListLocale(separator: Option<char>, env: LocaleSources)
    requires IsLiteralSeparator(separator.GetOr('-'))
    ensures var r := GetLocaleList(separator, env);
      forall i :: 0 <= i < |r| ==> r[i].locale == Replace(r[i].name, separator.GetOr('-'), '-')
  {
    var r := GetLocaleList(separator, env);
    forall i | 0 <= i < |r| ensures r[i].locale == Replace(r[i].name, separator.GetOr('-'), '-') {
      JoinSplit(r[i].name, separator.GetOr('-'), '-');
    }
  }

  /** With a separator that is not a letter, splitting the name recovers the
      captured language and country (`""` when absent), and `locale` joins
      them with `-`. */
  lemma GetLocaleListLangCountry(separator: Option<char>, env: LocaleSources)
    requires IsLiteralSeparator(separator.GetOr('-')) && !IsAsciiLetter(separator.GetOr('-'))
    ensures var sep := separator.GetOr('-');
      var r := GetLocaleList(separator, env);
      forall i :: 0 <= i < |r| ==> DerivedFromName(r[i], sep)
  {
    var sep := separator.GetOr('-');
    var r := GetLocaleList(separator, env);
    var files := DiscoveredFiles(sep, env);
    var gs := SpecGroups(files);
    GetLocaleListGroups(separator, env);
    forall i | 0 <= i < |r| ensures DerivedFromName(r[i], sep) {
      assert gs[i].name == Dedup(Names(files))[i];
      assert gs[i].name in Names(files);
      var k :| 0 <= k < |files| && Names(files)[k] == gs[i].name;
      assert files[k] in files;
      var lang, country := SurvivingFileName(files[k].path, sep, env.fileExists);
      DescribeDerived(lang, country, gs[i], sep, env);
    }
  }

  /** An entry's language, country and locale as they follow from its name. */
  predicate DerivedFromName(e: LocaleEntry, sep: char) {
    && IsLang(e.lang)
    && (e.country == "" || IsCountry(e.country))
    && e.name == e.lang + (if e.country == "" then [] else [sep] + e.country)
    && e.locale == e.lang + (if e.country == "" then [] else "-" + e.country)
  }

  lemma DescribeDerived(lang: string, country: string, g: LocaleGroup, sep: char, env: LocaleSources)
    requires IsLang(lang) && (country == "" || IsCountry(country)) && !IsAsciiLetter(sep)
    requires g.name == lang + (if country == "" then [] else [sep] + country)
    ensures var e := Describe(g, sep, env);
      DerivedFromName(e, sep) && e.lang == lang && e.country == country
  {
    NameSplits(lang, country, sep);
    if country != "" {
      assert Join([lang, country], '-') == lang + "-" + country by {
        assert [lang, country][1..] == [country];
      }
    }
  }

  lemma NameSplits(lang: string, country: string, sep: char)
    requires IsLang(lang) && (country == "" || IsCountry(country)) && !IsAsciiLetter(sep)
    ensures var name := lang + (if country == "" then [] else [sep] + country);
      Split(name, sep) == (if country == "" then [lang] else [lang, country])
  {
    assert sep !in lang;
    if country == "" {
      assert lang + [] == lang;
      SplitNoSeparator(lang, sep);
    } else {
      assert sep !in country;
      var parts := [lang, country];
      assert forall k :: 0 <= k < |parts| ==> sep !in parts[k];
      SplitJoin(parts, sep);
      assert lang + ([sep] + country) == lang + [sep] + country;
      assert [lang, country][1..] == [country];
      assert Join([lang, country], sep) == lang + [sep] + country;
    }
  }

  /** The UI locales of an entry: no duplicates, only modules that resolve,
      every resolving candidate present, in the resolver's first-occurrence
      order. */
  lemma GetLocaleListMetisUILocales(separator: Option<char>, env: LocaleSources)
    requires IsLiteralSeparator(separator.GetOr('-'))
    ensures var r := GetLocaleList(separator, env);
      forall i :: 0 <= i < |r| ==>
        var candidates := env.addMetisUILocales(r[i].lang, r[i].country);
        && NoDuplicates(r[i].metisuiLocale)
        && (forall m :: m in r[i].metisuiLocale <==> m in candidates && env.moduleExists(m))
        && InFirstOccurrenceOrder(r[i].metisuiLocale, candidates)
  {
    var r := GetLocaleList(separator, env);
    forall i | 0 <= i < |r|
      ensures var candidates := env.addMetisUILocales(r[i].lang, r[i].country);
        && NoDuplicates(r[i].metisuiLocale)
        && InFirstOccurrenceOrder(r[i].metisuiLocale, candidates)
    {
      var candidates := env.addMetisUILocales(r[i].lang, r[i].country);
      FilterNoDuplicates(Dedup(candidates), env.moduleExists);
      DedupFirstOccurrenceOrder(candidates);
      FilterFirstOccurrenceOrder(Dedup(candidates), candidates, env.moduleExists);
    }
  }

  // ---------------------------------------------------------------------------
  // exactLocalePaths

  /** `lodash.flatten` of every entry's paths. */
  function ExactLocalePaths(es: seq<LocaleEntry>): seq<string> {
    if es == [] then [] else es[0].paths + ExactLocalePaths(es[1..])
  }

  lemma {:induction false} ExactLocalePathsAppend(a: seq<LocaleEntry>, b: seq<LocaleEntry>)
    ensures ExactLocalePaths(a + b) == ExactLocalePaths(a) + ExactLocalePaths(b)
  {
    if a == [] {
      assert a + b == b;
    } else {
      assert (a + b)[1..] == a[1..] + b;
      ExactLocalePathsAppend(a[1..], b);
    }
  }

  /** The number of paths over all entries. */
  function TotalPaths(es: seq<LocaleEntry>): nat {
    if es == [] then 0 else |es[|es| - 1].paths| + TotalPaths(es[..|es| - 1])
  }

  /** The flattened list is as long as all the entries' path lists together. */
  lemma {:induction false} ExactLocalePathsLength(es: seq<LocaleEntry>)
    ensures |ExactLocalePaths(es)| == TotalPaths(es)
  {
    if es != [] {
      var init, last := es[..|es| - 1], es[|es| - 1];
      assert es == init + [last];
      ExactLocalePathsAppend(init, [last]);
      assert ExactLocalePaths([last]) == last.paths;
      ExactLocalePathsLength(init);
    }
  }

  lemma {:induction false} ExactLocalePathsOfGroups(gs: seq<LocaleGroup>, sep: char, env: LocaleSources)
    ensures ExactLocalePaths(seq(|gs|, i requires 0 <= i < |gs| => Describe(gs[i], sep, env))) == AllPaths(gs)
  {
    if gs != [] {
      ExactLocalePathsOfGroups(gs[1..], sep, env);
      var es := seq(|gs|, i requires 0 <= i < |gs| => Describe(gs[i], sep, env));
      assert es[1..] == seq(|gs[1..]|, i requires 0 <= i < |gs[1..]| => Describe(gs[1..][i], sep, env));
    }
  }

  /** The watched paths are exactly the surviving files, each as often as the
      listings produced it. */
  lemma GetLocaleListWatchedPaths(separator: Option<char>, env: LocaleSources)
    requires IsLiteralSeparator(separator.GetOr('-'))
    ensures var files := DiscoveredFiles(separator.GetOr('-'), env);
      var watched := ExactLocalePaths(GetLocaleList(separator, env));
      multiset(watched) == multiset(PathsOf(files)) && |watched| == |files|
  {
    var sep := separator.GetOr('-');
    var files := DiscoveredFiles(sep, env);
    ExactLocalePathsOfGroups(GroupByName(files), sep, env);
    GroupByNameKeepsPaths(files);
    var watched := ExactLocalePaths(GetLocaleList(separator, env));
    assert |watched| == |multiset(watched)|;
  }
}
