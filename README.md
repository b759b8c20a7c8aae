# Drupal debug commands — verified model

A Dafny model of the logic inside the two Robo command classes
`DrupalDebugCommands` and `DrupalDebugCommand`, which switch a Drupal site
into local debug mode:

- **`drupal:enable-debugging [siteDir]`** writes two override files in the
  site directory (default `web/sites/default`):
  - `settings.local.php` is made to contain a fixed list of nine lines: the
    `<?php` open tag and eight debug directives. One directive embeds
    `siteDir`. A missing file is first seeded with `"<?php\n"`. The file is
    then read once. Each listed line that this snapshot does not contain
    case-insensitively (`stripos`) is appended, followed by a newline,
    directly after the existing content. Nothing is ever removed or
    reordered.
  - `services.local.yml` is rewritten as the PHP array union
    `$fragment + $existing` of a fixed debug fragment (top-level keys
    `parameters` and `services`) and the file's parsed content. The
    fragment's keys win, other top-level keys survive, and the merge is
    shallow.
- **`drupal:find-sites`** runs `find` for `settings.php` files. It then
  checks the exit code, trims and splits the output on newlines, drops the
  falsy entries and returns the `dirname` of each remaining entry.

The two classes carry the same `writeSettingsFile` and
`updateServicesFile` bodies (`DrupalDebugCommands.php:107-166` and
`DrupalDebugCommand.php:59-116`), so one model serves both. `findSites`
exists only in `DrupalDebugCommands.php`.

Modules:

- `PhpStrings` (`php_strings.dfy`): the PHP built-ins the commands use.
  These are `stripos` as case-insensitive containment with ASCII folding,
  `trim`, `explode("\n", …)`, `array_filter` on strings and Unix `dirname`.
- `Settings` (`settings.dfy`): the debug line list and the content a run
  produces, `SettingsAfterWrite`, with its lemmas.
- `Services` (`services.dfy`): an abstract YAML `Value`, the debug
  fragment, left-precedence union and its lemmas.
- `FindSites` (`find_sites.dfy`): the output parsing of `findSites`, as a
  method with a loop proved against `FindSitesResult`.
- `Commands` (`commands.dfy`): the class `SiteFiles`, holding the two files
  of one site as fields that its methods update in place.
- `Wrappers` (`wrappers.dfy`): `Option`.

Behaviour of the code worth stating plainly:

- `$lines + $existing` makes the fragment's keys win: the fragment's
  `parameters` and `services` replace the file's. An existing-wins merge is
  not what the program does. `UpdateMergesTopLevel` and `UpdateIsShallow`
  state this.
- No newline is put in front of the appended lines. When the existing
  `settings.local.php` does not end in a newline, the first appended line
  continues its last line. If that line is a `//` comment, the directive
  ends up inside the comment, and later runs leave it there because
  `stripos` finds it. `WriteAppendsDirectly` and `WriteAfterTrailingComment`
  state this.
- `findSites` returns one directory per output line. Duplicates are not
  removed.
- `empty($output)` is also true for the output `"0"`. In that case
  `findSites` returns `null`, modelled as `None`.

## Model

| member | source | states |
|---|---|---|
| `PhpStrings.ContainsCI` | src/Robo/Plugin/Commands/DrupalDebugCommands.php:133 | `stripos` finds the needle exactly when the lower-cased needle occurs at some position of the lower-cased haystack; a hit implies the needle is no longer than the haystack |
| `PhpStrings.Trim` | src/Robo/Plugin/Commands/DrupalDebugCommands.php:69 | the trimmed output is a slice of the output, everything cut off on either side is one of PHP's default trim characters, and the result neither starts nor ends with one |
| `PhpStrings.Explode` | src/Robo/Plugin/Commands/DrupalDebugCommands.php:77 | splitting on "\n" gives at least one piece, no piece holds a newline, and joining the pieces with "\n" gives the input back |
| `PhpStrings.ExplodeImplode` | src/Robo/Plugin/Commands/DrupalDebugCommands.php:77 | the other round trip: splitting a newline-free list joined with "\n" gives that list back |
| `PhpStrings.DropFalsy` | src/Robo/Plugin/Commands/DrupalDebugCommands.php:77 | `array_filter` keeps exactly the entries other than "" and "0" (as a set of values) and never adds any |
| `PhpStrings.DropFalsyOne` | src/Robo/Plugin/Commands/DrupalDebugCommands.php:77 | a single entry survives `array_filter` exactly when it is neither "" nor "0" |
| `PhpStrings.DropFalsyAppend` | src/Robo/Plugin/Commands/DrupalDebugCommands.php:77 | filtering distributes over concatenation; with `DropFalsyOne` this means every truthy entry is kept, once per occurrence, in input order |
| `PhpStrings.Dirname` | src/Robo/Plugin/Commands/DrupalDebugCommands.php:82 | `dirname` of "" is ""; otherwise it is ".", "/", or a proper prefix of the path that does not end in a slash |
| `PhpStrings.DirnameOfChild` | src/Robo/Plugin/Commands/DrupalDebugCommands.php:82 | `dirname("dir/name")` is `dir` for a non-empty, slash-free name and a non-empty directory without a trailing slash |
| `FindSites.FindSites` | src/Robo/Plugin/Commands/DrupalDebugCommands.php:63-85 | the method (exit-code check, trim, empty check, split, filter, loop collecting `dirname`s) returns exactly `FindSitesResult` of the exit code and output |
| `FindSites.FindSitesResultMeaning` | src/Robo/Plugin/Commands/DrupalDebugCommands.php:63-85 | no list (null) exactly when the exit code is non-zero or the trimmed output is falsy; otherwise one directory per truthy output line, the `dirname` of that line, in order (an unfolding of `FindSitesResult`; the meaning of the lines comes from the `Trim`, `Explode`, `DropFalsyOne`/`DropFalsyAppend` and `DirnameOfChild` contracts) |
| `FindSites.TrimListing` | src/Robo/Plugin/Commands/DrupalDebugCommands.php:69 | `trim` removes just the final newline of a listing that neither starts nor ends with white space |
| `FindSites.ListingYieldsSiteDirectories` | src/Robo/Plugin/Commands/DrupalDebugCommands.php:63-85 | for `find` output listing `d/settings.php` for each directory `d` in order, one per line, the result is exactly those directories |
| `Settings.MissingLinesMembers` | src/Robo/Plugin/Commands/DrupalDebugCommands.php:132-133 | the lines a run appends are exactly the listed lines that `stripos` does not find in the snapshot |
| `Settings.AppendedTextContains` | src/Robo/Plugin/Commands/DrupalDebugCommands.php:134-137 | every line appended with a trailing newline is afterwards contained, case-insensitively, in the appended text |
| `Settings.WritePreservesContent` | src/Robo/Plugin/Commands/DrupalDebugCommands.php:113-118 | the snapshot is a prefix of the result: an existing file's content, or the seed "<?php\n" of a missing one |
| `Settings.WriteSkipsPresentLines` | src/Robo/Plugin/Commands/DrupalDebugCommands.php:133 | a listed line already contained case-insensitively in the snapshot is not appended again |
| `Settings.WriteIsComplete` | src/Robo/Plugin/Commands/DrupalDebugCommands.php:120-139 | after one run every one of the nine lines, including the `siteDir`-specific `container_yamls` line, is contained case-insensitively in the file |
| `Settings.WriteIsIdempotent` | src/Robo/Plugin/Commands/DrupalDebugCommands.php:113-139 | a second run on the result appends nothing: the content is unchanged |
| `Settings.WriteOnMissingFile` | src/Robo/Plugin/Commands/DrupalDebugCommands.php:113-138 | a missing file becomes "<?php\n" followed by the eight directives in list order, each with a newline; `<?php` is not appended a second time |
| `Settings.WriteAppendsDirectly` | src/Robo/Plugin/Commands/DrupalDebugCommands.php:134-137 | the first appended line follows the existing content immediately, with its newline after it and none before it |
| `Settings.WriteAfterTrailingComment` | src/Robo/Plugin/Commands/DrupalDebugCommands.php:134-137 | (example) on a file "<?php\n// custom" the `container_yamls` directive is written onto the comment line |
| `Settings.SeedHoldsOpenTag` | src/Robo/Plugin/Commands/DrupalDebugCommands.php:115-121 | (fixed fact, a helper) the seed written into a missing file already contains the first listed line, `<?php` |
| `Settings.ContainerYamlsLineDeterminesSite` | src/Robo/Plugin/Commands/DrupalDebugCommands.php:122 | the `container_yamls` line embeds `siteDir` verbatim: equal lines mean equal site directories |
| `Services.DebugFragment` | src/Robo/Plugin/Commands/DrupalDebugCommands.php:148-158 | the fixed fragment has exactly the top-level keys `parameters` and `services` |
| `Services.Union` | src/Robo/Plugin/Commands/DrupalDebugCommands.php:161 | `$left + $right` has the keys of both; the left value wherever the left has the key; the right value for keys only on the right |
| `Services.UpdateMergesTopLevel` | src/Robo/Plugin/Commands/DrupalDebugCommands.php:160-161 | the written document's keys are `parameters`, `services` and the file's keys; the fragment's two values replace the file's; every other key of the file keeps its value |
| `Services.UpdateIsShallow` | src/Robo/Plugin/Commands/DrupalDebugCommands.php:161 | a parameter of the file that the fragment does not list is lost from `parameters`: nested mappings are not merged |
| `Services.UpdateIsIdempotent` | src/Robo/Plugin/Commands/DrupalDebugCommands.php:145-165 | updating an already updated services file writes the same document |
| `Services.UpdateKeepsUnrelatedKey` | src/Robo/Plugin/Commands/DrupalDebugCommands.php:160-161 | (example) a file holding only `foo: bar` becomes the fragment plus `foo: bar` |
| `Commands.SiteFiles.WriteSettingsFile` | src/Robo/Plugin/Commands/DrupalDebugCommand.php:59-90 | afterwards the settings file exists and holds `SettingsAfterWrite` of its old existence, old content and the site directory |
| `Commands.SiteFiles.AppendMissingLines` | src/Robo/Plugin/Commands/DrupalDebugCommand.php:68-89 | the loop leaves the content as the snapshot followed by each listed line missing from the snapshot, in list order, each with a newline |
| `Commands.SiteFiles.UpdateServicesFile` | src/Robo/Plugin/Commands/DrupalDebugCommand.php:95-116 | afterwards the services file exists and holds the fragment united with its old document (empty if it did not exist), replacing what was there |
| `Commands.SiteFiles.EnableDrupalDebugging` | src/Robo/Plugin/Commands/DrupalDebugCommand.php:48-54 | both files are updated as above, settings first, with no short-circuit between them |

## Left out

- Running `find` and its path filters (`*/sites/*`, not under `core`, `modules`, `vendor`, `node_modules`): an external process. Only its exit code and output text are inputs, so the exclusion of vendor paths is not modelled.
- YAML parsing and dumping: a library outside the model. A services document is its parsed top-level mapping of abstract `Value`s, so the text written (and the newline `->line()` adds) is not modelled.
- Top-level YAML keys are strings; PHP's integer array keys (from a top-level YAML list) are not modelled.
- An existing but empty or scalar services file: the parser then returns `null` or a scalar and `$lines + $existing` fails in PHP. The model's existing document is always a mapping.
- File-system primitives (`file_exists`, `_touch`, `file_put_contents`, `file_get_contents`, `taskWriteToFile`) beyond each file's existence and content, and every I/O failure.
- Logging through `say` (including the "Found N settings.php files" count), `getenv('PWD')`, `stopOnFail`, and the `hello` command of `DrupalDebugCommand`.
- Locale-dependent case folding: `stripos` is modelled with ASCII lower-casing only.
- `dirname` on Windows (backslashes, drive letters) and its `levels` argument.
- Concurrent runs against the same site directory.
- The default argument `$siteDir = 'web/sites/default'` of `enableDrupalDebugging`: the command line is outside the model, so `SiteFiles.siteDir` is always given explicitly.
- Services.UpdateIsIdempotent: assumes that reading back the dumped YAML gives the written mapping (`Yaml::parseFile(Yaml::dump(d)) == d`). The file is stored as its parsed document, so a second run re-reads exactly what the first wrote; a dumper/parser mismatch is not modelled.
