# umi-plugins locale: a Dafny model

A Dafny model of three parts of `@metisjs/umi-plugins`:

- **Locale-file discovery** (`src/utils/localeUtils.ts`). This covers `getLocaleList`, `getMetisUILocale` and
  `exactLocalePaths`. The model matches a file name against the locale pattern
  `^([a-z]{2})<sep>?([A-Z]{2})?.(js|json|ts)$` and names the file after its captures. It groups the
  files by name in first-encounter order and describes each group: its language, country and
  `-`-joined locale, the UI-library locale modules that resolve, and its paths. The two directory
  listings, `existsSync`, the `addMetisUILocales` hook and `require.resolve` are parameters
  (`LocaleSources`). This makes `getLocaleList` a pure function (`LocaleUtils.GetLocaleList`).
- **The locale plugin's derivations** (`src/locale.ts`). This covers `packageNormalize`, the options
  laid over the defaults, the `zh<sep>CN` fallback for the default locale, and the initial candidate
  of the `addMetisUILocales` hook. It also covers the data that `onGenerateFiles` hands to each
  template (`Locale.GenerateFiles`): the fallback UI locales, the index-paired locale list and
  `ShowSelectLang`.
- **The release script's decisions** (`scripts/release.js`). This covers the npm dist-tag chosen for a
  version, the git tag made only for `latest`, and the one-time-password re-prompt loop. The
  loop reads from a sequence of answers.

The modules are:

- `Wrappers`: `Option`.
- `Builtins`: `lodash.uniq`, `filter`, `split`, `join`, `includes` and UTF-16 `length`, each over sequences.
- `LocaleUtils`, `Locale` and `Release`: one module per source file.
- `LocaleScenarios`: worked cases that pin the model to concrete file names.

Points where the model follows the code rather than its apparent intent:

- In the pattern, `\.` sits inside a template literal, so the regular expression receives a bare
  `.`. Any single UTF-16 code unit other than a line terminator may stand before the extension,
  so `en-US_ts` matches (`LocaleScenarios.AnyCharacterBeforeExtension`).
- The separator is optional in the pattern: `enUS.ts` is named `en-US`.
- `.filter((locale) => locale)` on the list of UI-locale arrays keeps every array, because an
  array is always truthy. So the fallback UI locales are computed only when no locale file was found
  at all and `metisui` is on. They are not computed when some file was found but none of its UI
  locales resolve.

## Model

| member | source | states |
|---|---|---|
| LocaleUtils.GetMetisUILocale | src/utils/localeUtils.ts:18-19 | the UI locale is `lang`, `_`, then the country upper-cased, or the language upper-cased when the country is empty; no lower-case ASCII letter after the `_` |
| LocaleUtils.UpperCaseOfCountry | src/utils/localeUtils.ts:19 | upper-casing leaves a two-capital country code unchanged |
| LocaleUtils.MetisUILocaleOfDiscoveredName | src/utils/localeUtils.ts:18-19 | for a discovered language and country the UI locale is `ll_CC`, or `ll_LL` without a country; its last two characters form a country code |
| LocaleUtils.MatchLocaleFileNameComplete | src/utils/localeUtils.ts:54-56 | every name the pattern describes (language, optional separator, optional country, any Basic Multilingual Plane character other than a line terminator, `js`/`json`/`ts`) matches, and its captures are exactly the language and country it was built from |
| LocaleUtils.MatchLocaleFileNameSound | src/utils/localeUtils.ts:54-56 | every name that matches is built that way from its captures, so nothing else matches |
| LocaleUtils.BasenameOfJoin | src/utils/localeUtils.ts:62-72 | the base name of `dir/name` is `name` when `name` has no slash |
| LocaleUtils.LocaleFiles | src/utils/localeUtils.ts:58-81 | a listed path survives iff its base name matches and it exists; the surviving files are exactly those, with nothing else reported |
| LocaleUtils.LocaleFilesAppend | src/utils/localeUtils.ts:58-70 | filtering the concatenated listings is filtering each one, the source folder's results before the pages' |
| LocaleUtils.SurvivingFileName | src/utils/localeUtils.ts:70-80 | a surviving file exists; the returned language and country are the captures of its base name, and its name is that language, plus separator and country only when a country was captured |
| LocaleUtils.PathsNamedAppend | src/utils/localeUtils.ts:63-83 | the paths with a given name in two concatenated lists are those of the first list then those of the second |
| LocaleUtils.AddToGroupsShape | src/utils/localeUtils.ts:83 | adding a file appends a new group for an unseen name, or pushes its path onto the one group with that name, touching no other group |
| LocaleUtils.GroupByNameIsSpec | src/utils/localeUtils.ts:83-85 | grouping yields one group per distinct name in first-encounter order, each holding the paths with that name in scan order |
| LocaleUtils.GroupByNameKeepsPaths | src/utils/localeUtils.ts:83-99 | grouping loses no path and invents none (as a multiset) |
| LocaleUtils.GetLocaleListGroups | src/utils/localeUtils.ts:83-102 | the result has one entry per group, in group order, each describing its group |
| LocaleUtils.GetLocaleListNames | src/utils/localeUtils.ts:83-102 | entry names are pairwise distinct, are exactly the names of the surviving files, and appear in first-encounter order |
| LocaleUtils.GetLocaleListPaths | src/utils/localeUtils.ts:58-99 | each entry's paths are the surviving source-folder paths with its name, then the surviving pages paths with its name, each in listing order |
| LocaleUtils.GetLocaleListLocale | src/utils/localeUtils.ts:96 | `locale` is the name with every separator replaced by `-` |
| LocaleUtils.NameSplits | src/utils/localeUtils.ts:78-86 | splitting a discovered name on a non-letter separator gives back its language, and its country when there is one |
| LocaleUtils.DescribeDerived | src/utils/localeUtils.ts:86-98 | the entry for such a name has that language, country (`""` when absent) and `-`-joined locale |
| LocaleUtils.GetLocaleListLangCountry | src/utils/localeUtils.ts:86-97 | with a non-letter separator, every entry's language, country and locale are those its name was built from |
| LocaleUtils.GetLocaleListMetisUILocales | src/utils/localeUtils.ts:35-89 | an entry's UI locales have no duplicates, hold exactly the hook's candidates that resolve, and keep the hook's first-occurrence order |
| LocaleUtils.ExactLocalePathsAppend | src/utils/localeUtils.ts:105-109 | flattening is in order: the flattened concatenation is the concatenation of the flattened parts |
| LocaleUtils.ExactLocalePathsLength | src/utils/localeUtils.ts:105-109 | the flattened list is as long as all entries' path lists together |
| LocaleUtils.ExactLocalePathsOfGroups | src/utils/localeUtils.ts:99-109 | flattening the described groups gives all the groups' paths, group after group |
| LocaleUtils.GetLocaleListWatchedPaths | src/utils/localeUtils.ts:105-109 | the watched paths are exactly the surviving files' paths, each as often as it was listed |
| Builtins.Dedup | src/utils/localeUtils.ts:87-88 | `uniq` keeps exactly the same elements, without duplicates, and is never longer |
| Builtins.DedupFirstOccurrenceOrder | src/utils/localeUtils.ts:87-88 | `uniq` keeps elements in the order of their first occurrence |
| Builtins.Filter | src/utils/localeUtils.ts:89 | the filter keeps exactly the elements satisfying the predicate |
| Builtins.FilterNoDuplicates | src/utils/localeUtils.ts:87-89 | filtering a duplicate-free list leaves it duplicate-free |
| Builtins.FilterFirstOccurrenceOrder | src/utils/localeUtils.ts:87-89 | filtering keeps the first-occurrence order relative to the original candidates |
| Builtins.FilterAppend | src/utils/localeUtils.ts:63-70 | filtering a concatenation is concatenating the filtered parts |
| Builtins.Split | src/utils/localeUtils.ts:86 | `split` yields at least one piece and no piece contains the separator |
| Builtins.JoinSplit | src/utils/localeUtils.ts:96 | `split(c).join(d)` replaces every `c` by `d` and keeps everything else |
| Builtins.SplitJoin | src/utils/localeUtils.ts:78-86 | joining separator-free pieces and splitting again gives the pieces back |
| Builtins.ContainsAt | scripts/release.js:53-60 | `includes` holds iff the text occurs at some position |
| Builtins.Utf16Length | scripts/release.js:88 | `length` counts UTF-16 units: between the number of characters and twice that, and equal to it when every character is in the Basic Multilingual Plane |
| Locale.PackageNormalize | src/locale.ts:30-31 | every `@`, `/`, `-`, `.` becomes `_`, every other character is kept, the length is preserved and none of the four is left |
| Locale.PackageNormalizeIdempotent | src/locale.ts:30-31 | normalising twice equals normalising once |
| Locale.MergeConfig | src/locale.ts:41-107 | each option is the user's value when set, otherwise `baseNavigator` true, `useLocalStorage` true, `baseSeparator` `-`, `metisui` whether the UI library is installed |
| Locale.MergeConfigUserWins | src/locale.ts:104-107 | a config that sets every key is taken unchanged |
| Locale.DefaultLocale | src/locale.ts:108 | the default locale is never empty: the configured default when non-empty, otherwise `zh`, separator, `CN` |
| Locale.DefaultLocaleFallbackSplits | src/locale.ts:108-117 | the fallback splits back into `zh` and `CN` on a non-letter separator |
| Locale.InitialMetisUILocaleSegments | src/locale.ts:75-80 | the hook's initial candidate is the four path segments `metis-ui`, `lib` (SSR) or `es`, `locale`, and the UI locale |
| Locale.WithIndex | src/locale.ts:160-167 | pairing with positions keeps the length and gives the i-th element index i |
| Locale.WithIndexValues | src/locale.ts:160-167 | the paired list holds the original elements in the original order |
| Locale.RenderLocaleList | src/locale.ts:158-168 | one rendered entry per locale entry, in order |
| Locale.RenderLocaleListKeepsOrder | src/locale.ts:158-168 | every rendered entry keeps its name and its UI locales and paths in order, each paired with its position |
| Locale.ListSeparator | src/locale.ts:44-88 | the separator `getLocaleList` receives falls back to the same `-` as the plugin's default |
| Locale.GenerateFiles | src/locale.ts:95-201 | the data of `locale.tsx`, `localeExports.ts`, `runtime.tsx` and `SelectLang.tsx`; fallback UI locales only when the list is empty and `metisui` is on, duplicate-free, and taken for `zh`/`CN` when no default is configured and the separator is not a letter; `ShowSelectLang` iff more than one locale and `metisui` |
| Release.TagName | scripts/release.js:52-60 | the tag is one of `latest`, `next`, `canary` |
| Release.SelectTag | scripts/release.js:52-60 | `canary` iff the version contains `-canary.`; `next` iff it contains `-alpha.`, `-beta.` or `-rc.` but not `-canary.`; `latest` iff it contains none of these |
| Release.PromptOneTimePassword | scripts/release.js:77-89 | without two-factor auth on writes, no prompt and no arguments; otherwise prompting stops at the first answer of length 6, every earlier answer had another length, and the arguments are `--otp` and that answer |
| Release.Release | scripts/release.js:52-91 | the git tag is made iff the tag is `latest`, and it is the version; publish runs with `--no-git-checks --tag <tag>`, plus `--otp` and the first answer of length 6 when two-factor auth covers writes |
| LocaleScenarios.AnyCharacterBeforeExtension | src/utils/localeUtils.ts:54-56 | `en-US_ts` and `zhXjson` match the pattern |
| LocaleScenarios.SeparatorOptional | src/utils/localeUtils.ts:54-78 | `locales/enUS.ts` is named `en-US` |
| LocaleScenarios.WrongSeparatorDropped | src/utils/localeUtils.ts:54-70 | `locales/en_US.ts` is dropped when the separator is `-` |
| LocaleScenarios.FileOfJoined | src/utils/localeUtils.ts:62-80 | a well-formed existing file in a folder survives under the name built from its parts |
| LocaleScenarios.HyphenatedFile | src/utils/localeUtils.ts:70-80 | `<dir>/<ll>-<CC>.ts` is named `<ll>-<CC>` |
| LocaleScenarios.CountryLessFile | src/utils/localeUtils.ts:78-97 | `fr.ts` gives one entry with language `fr`, empty country, name and locale `fr` |
| LocaleScenarios.TwoFoldersDiscovered | src/utils/localeUtils.ts:58-81 | two source files and one page file survive in listing order |
| LocaleScenarios.ThreeSurvive | src/utils/localeUtils.ts:70-81 | three surviving paths give their three files in order |
| LocaleScenarios.TwoFoldersGrouped | src/utils/localeUtils.ts:83 | files named `en-US`, `zh-CN`, `en-US` group into `en-US` with both paths, then `zh-CN` |
| LocaleScenarios.SourceAndPageFolders | src/utils/localeUtils.ts:58-102 | the same locale in the source folder and a page folder gives one entry with both paths, source first |
| LocaleScenarios.OneFileDiscovered | src/utils/localeUtils.ts:58-81 | a single surviving source file is the whole discovery |
| LocaleScenarios.DedupTwice | src/utils/localeUtils.ts:87-88 | `uniq` of `[u, u, x]` is `[u, x]` |
| LocaleScenarios.UiLocalesOfEnUs | src/utils/localeUtils.ts:86-89 | the group `en-US` asks the hook for `en`/`US`; a repeated candidate is kept once and an unresolvable one is dropped |
| LocaleScenarios.UiLocalesDeduplicated | src/utils/localeUtils.ts:87-89 | the same end to end, from the listing to the entry |
| LocaleScenarios.NoLocaleFolder | src/utils/localeUtils.ts:58-102 | empty listings give an empty list |

## Left out

- LocaleUtils.GetLocaleList: the separator is one character that is not a regular-expression metacharacter. The source splices any string into the pattern unescaped, and `?` then makes only its last character optional. An empty, longer or metacharacter separator is not modelled, nor is a separator outside the Basic Multilingual Plane, which JavaScript stores as two code units.
- Locale.GenerateFiles: the same restriction applies to `baseSeparator` through `Locale.SupportedSeparator`.
- Locale.ListSeparator: the same restriction applies to `baseSeparator` through `Locale.SupportedSeparator`.
- LocaleUtils.GetLocaleListLangCountry: stated only for separators that are not letters. With a letter separator the name's own letters can split it differently.
- LocaleUtils.GetMetisUILocale: `toLocaleUpperCase` is modelled on ASCII letters only. Other characters are kept, and locale-specific case mappings are not modelled.
- Release.PromptOneTimePassword: the answers are a finite sequence. When they run out before an answer of length 6, the model reports `None`, where the script would keep prompting.
- `glob.sync`, `existsSync` and `require.resolve` are parameters: two listings and two predicates. The listings are taken as already joined onto their folder and normalised by `winPath`, which is taken to be idempotent. Glob's own pattern matching is not modelled, so the listings may hold names that glob would not return.
- `Promise.all` and the async hook are modelled as a sequential map, which gives the same output order.
- `api.applyPlugins` for `addMetisUILocales` is an opaque function of the initial value, language and country.
- The detection of the UI library through `require.resolve("metis-ui")` is a boolean input, and the warning it logs is not modelled.
- Template files, Mustache rendering and `writeTmpFile` are not modelled. The model gives the data each template receives. This leaves out the `NormalizeMetisUILocalesName` helper, `EventEmitterPkg`, `reactIntlPkgPath`, `warningPkgPath`, the `JSON.stringify` of the default locale, and the fixed `index.ts` and runtime type files.
- `api.describe` and its config schema are not modelled. Config keys are either set or absent, so a key set explicitly to `undefined` is not modelled.
- Runtime plugin registration is not modelled. The watcher registration is modelled only through `exactLocalePaths`.
- `title && api.config.title` is modelled as a truth value.
- The release script's shell steps are not modelled: git status, fetch and push, the registry check, `rimraf`, the build, the publish command, logging and `process.exit`.
- src/metisui.ts is not part of this model.
