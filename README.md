# Bitrix CLI installer front-end, modelled in Dafny

`www/install_cli.php` lets an administrator drive the Bitrix web installer
(`bitrixsetup.php`) from a shell. It reads `--flag[=value]` arguments into an
options array and picks the edition's download path from a per-language table.
It then runs the installer inside the same PHP process by overwriting the
request globals and including the installer's file: a LOAD request downloads
the edition, and an UNPACK request unpacks an archive. To choose the archive
it takes the newest file, by modification time, that a series of glob
patterns matches, and it deletes the unpacked archive from the working
directory. The function `handle_cli_installation` turns all of this into the
process exit code.

The project has seven modules, one per concern of the script:

- `PhpValues` (php_values.dfy) covers the PHP values the script stores: a
  string, the `true` a bare flag receives, and an integer. It also gives
  PHP's `empty()` and `explode('=')`, with `Implode` as the inverse it is
  proved against.
- `CliArgs` (cli_args.dfy) covers `parse_cli_args`. It is a left fold of one
  switch step over the arguments (`ParseArgs`), plus the loop itself
  (`ParseCliArgs`), which is proved equal to the fold.
- `Editions` (editions.dfy) covers `get_editions_by_language`, the
  `isset`/lookup of the edition, the `list` output and `basename`.
- `DistFiles` (dist_files.dfy) covers the newest-file loops and the ordered
  pattern search with its early `break`. Each loop is a method proved against
  a specification function.
- `RequestParams` (request_params.dfy) covers the LOAD and UNPACK parameter
  arrays.
- `RequestContext` (request_context.dfy) covers the request globals as a
  class and `simulate_request`, which saves them, overwrites them, runs the
  installer and puts them back. A ghost log on the class records every
  request made this way: its parameter array, and whether the output was
  captured.
- `Installation` (installation.dfy) covers `handle_cli_installation`. It is a
  specification function `CliOutcome` from options and file system to exit
  code, installer calls, deleted archive and listed editions. The method
  `HandleCliInstallation` performs the steps on a `Context`. It is proved to
  produce exactly that outcome. Its request log grows by exactly the
  parameter arrays of the outcome's calls (`Sent`), in order.

The model follows the code where the code and its own help text disagree. The
default language is `ru` (line 54), although the help text announces `en`.

## Model

| member | source | states |
|---|---|---|
| PhpValues.ExplodeSpec | www/install_cli.php:62 | `explode('=')` gives pieces without '='; the first piece is the text before the first '='; there is one piece exactly when there is no '=' |
| PhpValues.ImplodeExplode | www/install_cli.php:62 | joining the pieces of `explode('=')` with '=' gives back the argument |
| PhpValues.ExplodeImplode | www/install_cli.php:62 | splitting the join of '='-free pieces gives back the pieces |
| CliArgs.ParseCliArgs | www/install_cli.php:46-105 | the loop over `$argv` with its switch gives exactly the left fold `ParseArgs` from the defaults |
| CliArgs.FlagNameSpec | www/install_cli.php:61-63 | the parameter name is the text after "--" up to, and not including, the first '=' |
| CliArgs.FlagValueSpec | www/install_cli.php:62-69 | a flag's value is `true` exactly when the argument has no '=', and a string value contains no '=' |
| CliArgs.FlagWithValue | www/install_cli.php:62-69 | `--name=v` followed by more '='-pieces is the flag `name` with value `v`; the later pieces are dropped |
| CliArgs.BareFlag | www/install_cli.php:65-69 | a bare `--name` is the flag `name` with value `true` |
| CliArgs.OnlyRecognisedArgsMatter | www/install_cli.php:60-102 | non-flag arguments and flags of unknown names leave the options unchanged wherever they stand |
| CliArgs.NoFlagsGiveDefaults | www/install_cli.php:49-58 | with no recognised flag the options are exactly the defaults |
| CliArgs.AbsentFlagKeepsDefault | www/install_cli.php:49-58 | a value-bearing option whose flag never occurs keeps its default |
| CliArgs.LastOccurrenceWins | www/install_cli.php:60-100 | a value-bearing option holds the value of the last occurrence of its flag |
| CliArgs.SwitchOnIffGiven | www/install_cli.php:91-99 | `auto`, `verbose` and `help` are on exactly when their flag occurs somewhere, with or without a value |
| CliArgs.LicenseTypeFollowsLastLicenceFlag | www/install_cli.php:78-87 | the licence is "src" exactly when some `--commercial` or `--license-key` is not followed by a `--demo` |
| CliArgs.DemoAfterKeyKeepsKey | www/install_cli.php:78-87 | `--license-key=K --demo` ends with a demo licence while the key K stays recorded |
| Editions.EditionsByLanguage | www/install_cli.php:108-140 | every table has exactly the seven edition keys with non-empty paths, and the site editions map to their own names; a language with a table gets that table |
| Editions.UnknownLanguageGetsEnglish | www/install_cli.php:139 | any language other than ru/en/de, a bare `--lang` included, gets the English table |
| Editions.PortalPathsDependOnLanguage | www/install_cli.php:115-135 | the three portal editions have a different path in each of the three languages |
| Editions.EditionPath | www/install_cli.php:200-205 | an edition is available exactly when it is a string among the seven keys; its path is the table's entry and is non-empty |
| Editions.Listing | www/install_cli.php:216-222 | `list` prints every edition key once, in table order, each with its path |
| Editions.Basename | www/install_cli.php:263 | the result is the suffix of the path after its last '/' and contains no '/' |
| DistFiles.NewestIndexIsNewest | www/install_cli.php:279-288 | the running maximum chooses nothing exactly when no time is positive; otherwise it chooses the file with the greatest time, the earliest of equal times |
| DistFiles.NewestIsNoneIff | www/install_cli.php:279-288 | no file is chosen exactly when no modification time is positive |
| DistFiles.ChosenIsNewestMember | www/install_cli.php:279-288 | a chosen name belongs to a file of the list with the greatest positive time, and no earlier file has that time |
| DistFiles.SelectNewest | www/install_cli.php:279-288 | the loop returns the running maximum's choice, which is none exactly when no time is positive and is otherwise a newest file |
| DistFiles.FirstNewestIsFirstHit | www/install_cli.php:340-357 | the search yields the choice of the first pattern that has one, and nothing exactly when no pattern has one |
| DistFiles.LaterPatternsNotConsulted | www/install_cli.php:341-356 | once a pattern yields a file, the later patterns' matches do not change the result |
| DistFiles.SearchPatterns | www/install_cli.php:340-357 | the loop with its `break` computes the ordered search |
| RequestParams.LoadParams | www/install_cli.php:233-247 | the LOAD array has action, edition 0, url, lang and licence type; it has LICENSE_KEY exactly for a "src" licence with a non-empty key, and `action_next` = UNPACK exactly with `--auto`; it has no other key |
| RequestParams.UnpackParams | www/install_cli.php:295-300 | the UNPACK array has exactly action UNPACK, the file name, lang and `by_step` Y |
| RequestParams.ZeroKeyIsNotSent | www/install_cli.php:241-243 | a "src" licence with key "0" sends no LICENSE_KEY, because PHP counts "0" as empty |
| RequestContext.SimulatedServer | www/install_cli.php:156-162 | the installer's `$_SERVER` keeps every other entry and sets the six simulated ones to their fixed values |
| RequestContext.Context.SetLanguage | www/install_cli.php:207-210 | `lang` is stored in `$_GET`, `$_REQUEST` and `$_POST` and nothing else changes |
| RequestContext.Context.SimulateRequest | www/install_cli.php:143-182 | the installer sees the parameters as GET, POST and REQUEST plus the simulated server; when the installer returns normally, all five globals are as before whatever it changed; the request and its capture flag are appended to the log; printed output is not returned |
| Installation.ResolveAction | www/install_cli.php:213-216 | "", "0", `install` and `load` install, `list` lists, `unpack` unpacks, and a bare `--action` (`true`) lists by loose comparison |
| Installation.UnpackPatterns | www/install_cli.php:333-338 | `unpack` searches four patterns, all in the working directory |
| Installation.UnpackStep | www/install_cli.php:374-403 | without an archive the step fails with no call; with one it adds exactly one UNPACK call after the earlier calls and deletes the archive exactly when it is in the working directory |
| Installation.InstallOutcome | www/install_cli.php:224-323 | `install` always makes the LOAD call first; a second call happens only with `--auto` and on success, and it is an UNPACK whose archive is deleted exactly when it is in the working directory |
| Installation.SentEntries | www/install_cli.php:254 | entry k of the log of a list of calls is call k's parameter array (`ParamsOf`) with call k's capture flag |
| Installation.InstallSends | www/install_cli.php:233-307 | `install` hands the installer the LOAD array for the edition first and, if there is a second request, the UNPACK array for the chosen archive, each captured unless `--verbose` is given |
| Installation.RunInstall | www/install_cli.php:224-323 | the `install` branch yields InstallOutcome, leaves the request globals as they were, and logs exactly the arrays of its calls |
| Installation.FindDownloaded | www/install_cli.php:262-288 | the search after a download yields the running maximum over the edition's archives, or else over all archives and partial downloads; it yields nothing exactly when no candidate has a positive time |
| Installation.UnpackArchive | www/install_cli.php:374-403 | the UNPACK step after earlier calls yields UnpackStep, leaves the globals as they were, and logs the UNPACK array |
| Installation.RunUnpack | www/install_cli.php:325-405 | the `unpack` branch yields the UNPACK step on the search's choice, leaves the request globals as they were, and logs exactly the arrays of its calls |
| Installation.ActionOutcome | www/install_cli.php:215-411 | the action switch exits 0 or 1, makes at most two calls, lists only with exit 0 and no call, and deletes exactly the archive of a final UNPACK that is in the working directory |
| Installation.CliOutcome | www/install_cli.php:185-414 | `--help` exits 0 with no call; an unavailable edition exits 1 with no call; the exit code is 0 or 1; a deleted archive is the one the last UNPACK call unpacked |
| Installation.HandleCliInstallation | www/install_cli.php:185-414 | the dispatch produces CliOutcome; the language is stored exactly when the edition was validated; `$_SERVER`/`$_ENV` are unchanged; the request log grows by exactly the parameter arrays of the outcome's calls, in order |
| Installation.EmptyActionMeansInstall | www/install_cli.php:213-225 | an action of "", "0" or `load` behaves exactly like `install` |
| Installation.BareActionLists | www/install_cli.php:213-216 | a bare `--action` behaves exactly like `--action=list` |
| Installation.ListAndUnknownActions | www/install_cli.php:216-222 | with a valid edition, `list` exits 0 with no call and the table's listing; an unknown action exits 1 with no call |
| Installation.InstallWithoutAutoLoadsOnly | www/install_cli.php:224-256 | without `--auto`, `install` makes exactly the LOAD call for the edition's path with no `action_next`, exits 0 and deletes nothing |
| Installation.ValidatedRouting | www/install_cli.php:199-230 | with a valid edition, `install` and `unpack` run their branch on the edition's path |
| Installation.AutoInstallNeedsArchive | www/install_cli.php:258-320 | with `--auto`, `install` fails exactly when no candidate archive has a positive modification time |
| Installation.AutoInstallUnpacksNewest | www/install_cli.php:258-307 | a successful `--auto` install asked for `action_next` UNPACK and then unpacked a newest candidate |
| Installation.UnpackNeedsArchive | www/install_cli.php:325-403 | `unpack` fails exactly when neither the four patterns nor the fallback glob yield a file; otherwise it unpacks the first hit's choice, or, when no pattern yields one, the fallback glob's newest archive |
| Installation.ArchiveGoneAfterUnpack | www/install_cli.php:394-399 | after a successful unpack, the unpacked archive is no longer in the working directory |
| Installation.HelpAnywhereExitsZero | www/install_cli.php:186-189 | `--help` anywhere among the arguments exits 0 with no installer call |
| Installation.UnavailableEditionFails | www/install_cli.php:199-205 | a last `--edition` that is not a table key exits 1 before any installer call, whatever the action |

## Left out

- Console output is not modelled: `cli_output`, `show_help`, the verbose messages and `json_encode`. Output buffering is modelled only as the captured-or-empty result of `simulate_request`.
- The installer `bitrixsetup.php` is not part of this model. `RunInstaller` changes the request globals arbitrarily and prints arbitrary text. Whether a download or an unpack succeeds is therefore not modelled; for an installer that returns normally, the exit code depends only on what the script checks.
- RequestContext.Context.SimulateRequest: assumes the included installer returns normally. The file is included inside `simulate_request`'s own scope with no try/finally (lines 165-179). If the installer calls `exit`/`die` or throws an uncaught error, the restore never runs and the process exit code is the installer's. If it assigns the locals `$orig_get` to `$orig_env`, the restored values are the installer's. `RunInstaller` models only the normal return, so the restore and the exit codes of `HandleCliInstallation` hold only for that case.
- `glob` and `filemtime` are modelled as the input `FileSystem.glob`, which maps a pattern to the files it matches with their times. `file_exists` is modelled as membership in `FileSystem.workingDirFiles`, and `unlink` as removal from it. The file system is taken as it is when the script looks; the files the installer itself creates are part of that input.
- `getcwd()` and `dirname(__FILE__)` are modelled as the directories `WorkingDir` and `scriptDir`. `$_SERVER['DOCUMENT_ROOT']` after `simulate_request` is the caller's value, restored; it is modelled as the directory `DocumentRoot`, not as a string.
- Installation.UnpackPatterns: `glob` is an unconstrained input, so the model does not know that pattern matching is monotone. Every name matching `base*encode*.tar.gz` or `base*source*.tar.gz` also matches the first pattern `base*.tar.gz` (lines 334-336). On a real file system the second and third patterns can therefore never decide the choice: whenever they match something, the first pattern already has, with the same files among its matches. The model keeps the four patterns in the code's order and does not state this subset relation.
- `filemtime` failure (`false`) is not modelled; every matched file has an integer time.
- The model takes glob results to be base names that PHP does not count as false, that is, neither "" nor "0". Under that assumption `if ($dist_file)` and `if ($latest_file)` test only whether a file was chosen.
- Editions.Basename: models `basename` only for paths without a trailing '/', which is all the table holds.
- The `edition` index 0 of the LOAD request is sent as the script has it; what the installer makes of it is not modelled.
- Each installer call in an outcome is recorded as a `Request` (LOAD with the edition's path, or UNPACK with the archive name). `ParamsOf` gives the array the call passes. The methods tie these records to the arrays actually handed to `SimulateRequest` through the context's log.
- `is_cli_mode`, `exit`, `header` and the web branch (lines 416-425) are not modelled; `ExitStatus` gives the code that `exit` receives.
- Integer widths play no part: the only integers are the modification times and the placeholder 0, and they are compared, never computed.
