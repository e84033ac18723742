# Windows baseline checks, modelled in Dafny

The repository has three small Windows auditing scripts. Each one compares what the host reports with a fixed baseline. This project models those comparisons and proves properties of them:

- **Process path matcher** (`check_process_paths.py`). For every running process whose name is a key of `expected_locations`, the script reports one of three things:
  - the executable path is unknown;
  - the process runs from the expected location, compared after `os.path.normcase`;
  - it runs from somewhere else, reported with both paths.

  A process whose executable path cannot be read is reported as not found (lines 47-48). The `except` at lines 57-58 skips a process only if reading it raises. Module `ProcessPaths`, file `process_paths.dfy`.
- **Registry key matcher** (`registry_audit.py`).
  - `read_registry_key` enumerates the values of one key by index until the first failure. A key that does not exist gives no values.
  - `audit_registry` flattens the values of every key in `AUDIT_KEYS` into report rows (category, path, value name, data). It then ends with the table or with the "no suspicious entries" message.
  - A `PermissionError` when opening a key is not caught, so it ends the whole run.

  Module `RegistryAudit`, file `registry_audit.dfy`.
- **Service drift matcher** (`services_check.py`).
  - `get_current_services` reads service names from the text that `sc query` prints.
  - `scan_services` clears the list box. It then fills the box with `sorted(current - default_services)`.
  - `save_results` writes a header line and one `- name` line per list box item.

  Module `ServicesCheck`, file `services_check.dfy`.

Two shared modules hold the Python semantics the scripts rely on:

- `Text` (`text.dfy`) covers `str.strip` with Python's whitespace set, `startswith`, `split(sep)[1]` and `splitlines` with Python's line boundaries. The same file also declares the `Wrappers` module with `Option` and `Result`.
- `Order` (`order.dfy`) covers Python's string order and the strictly increasing listing that `sorted` gives for a set.

The operating system enters only as inputs:

- the process table is a sequence of `ProcessEntry` values;
- the registry is a map from (hive, path) to what opening that key gives;
- the output of `sc query` is a string;
- the chosen file name of the save dialog is a string.

The code that updates state step by step is written as methods with loop invariants, each proved against a specification function:

- the process loop;
- the `while True` enumeration loop;
- the nested audit loops;
- the line loop of `get_current_services`;
- the list box refill;
- the file writer.

The list box is a class whose `items` field the scan replaces.

## Model

| member | source | states |
|---|---|---|
| `ProcessPaths.NormChar` | check_process_paths.py:52 | One character of Windows `normcase`: the result is never an upper-case ASCII letter and never `/`. |
| `ProcessPaths.NormCase` | check_process_paths.py:51-52 | `normcase` keeps the length and maps every character by `NormChar`. |
| `ProcessPaths.NormCharSame` | check_process_paths.py:52 | Two characters normcase to the same character exactly when they are equal, are both separators, or differ only in ASCII case. |
| `ProcessPaths.NormCaseEqualIff` | check_process_paths.py:51-52 | `normcase(a) == normcase(b)` holds exactly when the paths have the same length and differ at most in letter case and separator kind. |
| `ProcessPaths.NormCaseIdempotent` | check_process_paths.py:52 | `normcase` is idempotent. |
| `ProcessPaths.Classify` | check_process_paths.py:47-55 | The status is "not found" exactly when there is no executable. It is "correct" exactly when the executable path is equivalent to the expected one up to case and separators. A mismatch carries the expected path and the found path. |
| `ProcessPaths.Check` | check_process_paths.py:40-58 | An entry yields a finding exactly when it was listed and its name is a key of the table; the finding carries that name and pid. It says "not found" exactly when the entry has no executable. It says "correct" exactly when the executable path equals the table's path up to case and separator kind. Otherwise it is a mismatch carrying the table's path and the found path. |
| `ProcessPaths.CheckProcessLocations` | check_process_paths.py:39-58 | The loop yields exactly the findings of the specification, in process-iteration order. |
| `ProcessPaths.FindingsAppend` | check_process_paths.py:39-58 | Scanning two stretches of the process list gives the findings of each in turn, so one process never affects another's finding. |
| `ProcessPaths.FindingsMembership` | check_process_paths.py:39-55 | A finding is reported exactly when some entry of the list yields it. |
| `ProcessPaths.FindingsCount` | check_process_paths.py:39-55 | The number of findings equals the number of watched, listed entries: exactly one finding each. |
| `ProcessPaths.UnwatchedSkipped` | check_process_paths.py:44-58 | An entry that raised, has no name, or is not a table key adds nothing, and the scan of the rest goes on unchanged. |
| `ProcessPaths.MissingPathReported` | check_process_paths.py:47-49 | A watched process without an executable gives exactly a "not found" finding, never a mismatch, and the rest of the scan follows. |
| `ProcessPaths.NameMatchIsCaseSensitive` | check_process_paths.py:44 | The table lookup is case-sensitive: a process named `LSASS.EXE` yields no finding. |
| `ProcessPaths.ExpectedHasDoubledSeparator` | check_process_paths.py:29-32 | Every path in the written baseline has two backslashes after the drive. |
| `ProcessPaths.WrittenBaselineNeedsDoubledSeparator` | check_process_paths.py:29-52 | Against the written baseline, a process is reported correct only if its own path has two separators after the drive. |
| `ProcessPaths.LengthDifferenceIsMismatch` | check_process_paths.py:52-53 | A found path whose length differs from the expected path's is always a mismatch carrying both paths. |
| `ProcessPaths.WrittenBaselineRejectsGenuineSpooler` | check_process_paths.py:29 | Against the written baseline, the genuine `C:\Windows\System32\spoolsv.exe` is reported as a mismatch. |
| `ProcessPaths.IntendedBaselineAcceptsSpooler` | check_process_paths.py:51-55 | Against a baseline with single separators, the spooler seen as `C:\Windows\System32\SPOOLSV.EXE` is reported correct. |
| `ProcessPaths.ImpostorLsassMismatch` | check_process_paths.py:52-53 | Against the single-separator baseline, an `lsass.exe` running from `C:\Users\Public` is a mismatch that names both paths. |
| `RegistryAudit.Enumerated` | registry_audit.py:52-58 | Every value of the key is kept, in index order, with its name and data and without its type. |
| `RegistryAudit.ReadRegistryKey` | registry_audit.py:47-62 | The enumeration loop returns the key's contents. A missing key gives an empty list. A refused key gives the uncaught `PermissionError`. Otherwise the result has one (name, data) pair per value, in index order. |
| `RegistryAudit.KeyRows` | registry_audit.py:70-71 | A key contributes one row per value, tagged with the key's description and path and holding the value's name and data. |
| `RegistryAudit.AuditRegistry` | registry_audit.py:64-78 | The nested loops produce the outcome of the specification over the keys, in order, and stop at the first refused key. |
| `RegistryAudit.AppendRows` | registry_audit.py:70-71 | The inner loop appends exactly the key's rows after the rows so far. |
| `RegistryAudit.AuditRowsStep` | registry_audit.py:67-71 | Auditing one more key gives the rows so far followed by that key's rows, unless reading that key fails. |
| `RegistryAudit.AbortedPrefix` | registry_audit.py:50 | Once a key is refused, the audit of all the keys ends with that same error. |
| `RegistryAudit.AuditRowsAppend` | registry_audit.py:67-71 | Auditing two runs of keys gives the rows of the first run followed by the rows of the second. |
| `RegistryAudit.AddKeyAssociative` | registry_audit.py:71 | Adding a key's rows does not depend on the rows already in front. |
| `RegistryAudit.RowCount` | registry_audit.py:67-71 | A successful audit has exactly as many rows as the keys have values in total. |
| `RegistryAudit.RowPosition` | registry_audit.py:67-71 | Value `j` of key `k` is the row right after all rows of the earlier keys. Rows follow the order of the key list, then enumeration order. |
| `RegistryAudit.AbortedIff` | registry_audit.py:49-50 | The audit aborts exactly when some audited key exists and refuses access. |
| `RegistryAudit.NoEntriesIff` | registry_audit.py:73-78 | For a successful audit, "no suspicious entries" is reported exactly when every audited key has zero values. |
| `RegistryAudit.PrefixRows` | registry_audit.py:67-71 | The rows for the first keys of the list are the first rows of the whole audit, so later keys only append. |
| `RegistryAudit.LastKeyRow` | registry_audit.py:67-71 | Value `j` of the last audited key is the row right after all rows of the keys before it. |
| `RegistryAudit.MissingKeyLikeEmptyKey` | registry_audit.py:60-61 | A missing key gives the same audit as an existing key with no values, so it is not an error. |
| `RegistryAudit.ThreeValuesThreeRows` | registry_audit.py:52-71 | A key with three values gives three rows, in enumeration order, each tagged with the key. |
| `RegistryAudit.RunKeysDifferOnlyInCategory` | registry_audit.py:20-29 | The user and machine `Run` keys have different hives but the same path. For the same value their rows differ only in the category column. |
| `RegistryAudit.EmptyRegistryNoEntries` | registry_audit.py:64-78 | On a host where none of the keys in `AUDIT_KEYS` exists, the audit reports no suspicious entries. |
| `Text.TrimStart` | services_check.py:26 | `lstrip` gets no longer, and what it keeps does not start with whitespace. |
| `Text.TrimEnd` | services_check.py:26 | `rstrip` gets no longer, and what it keeps does not end with whitespace. |
| `Text.TrimStartSuffix` | services_check.py:26 | `lstrip` removes only whitespace and keeps the rest of the string. |
| `Text.TrimEndPrefix` | services_check.py:26 | `rstrip` removes only whitespace and keeps the start of the string. |
| `Text.Strip` | services_check.py:26 | The result of `strip` neither starts nor ends with whitespace. |
| `Text.StripPadded` | services_check.py:26 | `strip` of whitespace, then a stripped text, then whitespace gives exactly that text. |
| `Text.StripIdempotent` | services_check.py:26 | `strip` is idempotent. |
| `Text.FindFromFirst` | services_check.py:28 | The search finds the first occurrence of the separator at or after the start, and finds nothing only when there is none. |
| `Text.SecondField` | services_check.py:28 | `split(sep)[1]` of a line that starts with `sep` fits after the leading `sep`. |
| `Text.SecondFieldUpTo` | services_check.py:28 | `split(sep)[1]` runs from after the leading `sep` to the next occurrence of `sep`, or to the end of the line. |
| `Text.StripNoBreaks` | services_check.py:26 | Stripping a line keeps it free of line breaks. |
| `Text.SecondFieldNoBreaks` | services_check.py:28 | The second field of a line has no line breaks. |
| `Text.FirstBreakFirst` | services_check.py:25 | The scan for a line boundary finds the first one, and finds nothing only when there is none. |
| `Text.SplitLinesNoBreaks` | services_check.py:25 | No line produced by `splitlines` contains a line boundary. |
| `Text.SplitLinesCons` | services_check.py:25 | A line written with a `\n` terminator and followed by more text comes back from `splitlines` as that line, then the lines of the rest. |
| `Order.LessIrreflexive` | services_check.py:43 | No string sorts before itself. |
| `Order.LessTransitive` | services_check.py:43 | Python's string order is transitive. |
| `Order.LessTotal` | services_check.py:43 | Any two different strings are ordered one way, and never both ways. |
| `Order.Insert` | services_check.py:43 | Inserting into a strictly sorted list keeps it strictly sorted and adds exactly the new element. |
| `Order.SortedUnique` | services_check.py:43 | Two strictly sorted lists with the same elements are equal, so the sorted listing of a set is unique. |
| `Order.SortNames` | services_check.py:43 | `sorted` of a set gives a strictly increasing list with exactly the set's elements. |
| `ServicesCheck.ServiceNameOf` | services_check.py:28 | The name read from a service line is stripped. |
| `ServicesCheck.ServiceNameNoBreaks` | services_check.py:25-28 | A name read from a line without breaks has no breaks. |
| `ServicesCheck.CollectedIff` | services_check.py:29 | A name is in the set exactly when some line yielded it. Duplicates collapse. |
| `ServicesCheck.GetCurrentServices` | services_check.py:22-30 | The loop over `splitlines` builds exactly the set of names that the service lines of the output carry. Its body strips each line, tests the prefix and adds the stripped second field. |
| `ServicesCheck.ServicesInIff` | services_check.py:25-29 | A name is found exactly when some service line carries it. Every other line is ignored. |
| `ServicesCheck.ServiceNamesHaveNoBreaks` | services_check.py:25-29 | No service name read from the output spans a line boundary. |
| `ServicesCheck.ServiceLineReadsBack` | services_check.py:26-28 | The line `SERVICE_NAME: <name>` reads back as `<name>` when the name is stripped and does not contain the prefix; an empty name reads back as empty. |
| `ServicesCheck.EmptyServiceLine` | services_check.py:26-28 | A service line with nothing after the prefix is still a service line, and gives the empty name. |
| `ServicesCheck.SecondPrefixCutsName` | services_check.py:28 | With the prefix twice on a line, only the text between the two occurrences is the name. |
| `ServicesCheck.ExtraServices` | services_check.py:40-43 | The listing is strictly increasing and holds exactly the found services that are not defaults. |
| `ServicesCheck.ExtraListingUnique` | services_check.py:43 | There is only one such listing: it is `sorted(current - defaults)`. |
| `ServicesCheck.NothingListedIffAllDefault` | services_check.py:41 | Nothing is listed exactly when every found service is a default one. |
| `ServicesCheck.SpoolerSpellings` | services_check.py:15 | `Spooler` is a default service and `spooler` is not. |
| `ServicesCheck.SpoolerSpelledLowerIsExtra` | services_check.py:41 | Matching is exact: a found `spooler` is listed even though `Spooler` is a default. |
| `ServicesCheck.ServiceList.constructor` | services_check.py:88 | A new list box is empty. |
| `ServicesCheck.ServiceList.Clear` | services_check.py:42 | `delete(0, END)` empties the list box. |
| `ServicesCheck.ServiceList.Append` | services_check.py:44 | `insert(END, name)` adds the name after the existing items. |
| `ServicesCheck.ScanServices` | services_check.py:39-44 | After a scan the list box holds exactly the strictly sorted extra services. Nothing from an earlier scan remains. |
| `ServicesCheck.SavedBodySnoc` | services_check.py:59-60 | Writing one more item adds one `- name` line at the end. |
| `ServicesCheck.SaveResults` | services_check.py:54-60 | A cancelled dialog (empty file name) writes nothing. Otherwise the text is the header line, then one `- name` line per list box item, in list order. |
| `ServicesCheck.SavedTextReadsBack` | services_check.py:57-60 | Reading the saved text back with `splitlines` gives the header, then `- name` for each item, in order. |
| `ServicesCheck.SavedBodyReadsBack` | services_check.py:59-60 | The item lines read back one per item, in order. |
| `ServicesCheck.ScanThenSave` | services_check.py:39-60 | After a scan, the saved file reads back as the header and exactly one line per extra service, in sorted order. |

## Left out

- Operating-system calls are not modelled. The process table, the registry and the `sc query` output are inputs. This covers `psutil.process_iter`, `winreg.OpenKey`/`EnumValue`/`CloseKey` and `subprocess.run`.
- `get_service_details` (`sc qc`) and `show_service_details` are not modelled. They pass raw command output to the text box.
- The tkinter window, the save dialog, the message boxes and the `platform.platform()` check are user interface.
- `print` and `tabulate` output is not modelled. The model keeps the findings and rows that would be printed, not their text layout.
- Non-ASCII letters are not lower-cased. `normcase` is modelled as on Windows: `/` becomes `\`, then ASCII letters become lower case. Windows `normcase` also lower-cases other letters, such as `É`, by Unicode rules. The POSIX `normcase` (identity) is not modelled.
- `RegistryAudit.ReadRegistryKey` is weaker than the source: an `EnumValue` that fails for a reason other than the end of the enumeration, which would also stop the loop early, is not modelled. Enumeration fails exactly past the last value.
- `RegistryAudit.Enumerated` models registry data (strings, integers, byte strings, string lists) as a string, and the value type as an integer code.
- `ProcessPaths.Check` models a process whose name psutil cannot read as a missing name, which is never a table key. An exception raised inside the loop body (the `try` around lines 41-55) skips only that process; an exception raised by `process_iter` itself at line 39 is outside the `try` and would end the scan, which is not modelled.
- `ServicesCheck.SaveResults` gives the text passed to `f.write`. Three things are not modelled: the translation of each `\n` to `\r\n` by text mode on Windows, the file encoding (a name the locale encoding cannot represent raises `UnicodeEncodeError` partway through the write), and the closing message box. `ServicesCheck.SavedTextReadsBack` still holds for the file as written, because `splitlines` treats `\r\n` as a single boundary.
- No severity levels, degraded-category markers or timeouts are modelled, because the scripts have none. A refused registry key is not a per-key warning either: the `PermissionError` raised when opening it at registry_audit.py:50 is not caught, and the model ends the audit with that error, as the code does.
- The comparison is modelled on the baseline as the code writes it (`ProcessPaths.ExpectedLocations`). A separate baseline with single separators (`ProcessPaths.IntendedLocations`) is used for the corrected behaviour.

## Findings

| source | as written | input that shows it | evidently intended | confidence | as-written member | corrected member |
|---|---|---|---|---|---|---|
| check_process_paths.py:29-32 | The baseline paths are raw strings written with `\\`, so each separator holds two backslashes, and `normcase` does not merge them | the genuine spooler at `C:\Windows\System32\spoolsv.exe` is reported as a mismatch against `C:\\Windows\\System32\\spoolsv.exe` | single separators (`r"C:\Windows\System32\spoolsv.exe"`), so the genuine location is reported correct | not executed | `ProcessPaths.WrittenBaselineRejectsGenuineSpooler` | `ProcessPaths.IntendedBaselineAcceptsSpooler` |
