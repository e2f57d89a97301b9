# DCR Deployment Template Builder — a Dafny model

`dcrCreator.py` is a small interactive tool that builds Azure Monitor Data Collection Rule (DCR) deployment templates. It does four things:

- It scrapes the list of tables that support ingestion through the Logs Ingestion API (`get_supported_tables`).
- It scrapes each table's column schema from its reference page (`parseTableDetails`).
- It loads a template skeleton and empties its `streamDeclarations` and `dataFlows` (`loadDCRTemplate`).
- From a console menu, it lets the operator build up a selection of tables and then writes one template for the whole selection (option D) or one template per supported table (option E).

This project models that core in Dafny and proves what it promises:

| file | module | models |
|---|---|---|
| `wrappers.dfy` | `Wrappers` | the `Option` type (Python's `None`) |
| `strings.dfy` | `Strings` | `str.strip`, `str.lower`, `str(n)` for a count |
| `scrape.dfy` | `Scrape` | `get_supported_tables` and `parseTableDetails` over an abstract page |
| `template.dfy` | `Template` | the DCR value, `dataFlow`, the `loadDCRTemplate` skeleton, `buildDCR` |
| `output.dfy` | `Output` | the file-name rule of `writeDCR` |
| `menu.dfy` | `Menu` | the selection store (`addTable`, `removeTable`), the menu guards of options A, B, D and E, as the class `Menu.Session` |

Web pages are abstracted:

- A page of links is its HTTP status plus the sequence of its `<a href>` anchors.
- A reference page is its status plus its `<table>` elements, each a sequence of rows. A row has its text and the texts of its `<td>` cells.
- Every download that `buildDCR` triggers is one function, `fetch: string -> Page`, from a table name to its reference page.
- The template keeps the two collections the tool fills in. Everything else in it is carried along unchanged as an opaque `rest`.

The loops of the tool are methods proved against recursive specification functions:

- `GetSupportedTables` is proved against `TableLinks`.
- `ReadFields` and `ParseTableDetails` are proved against `BodyFields` and `TableDetails`.
- `BuildDcr` is proved against `Build`.
- `Session.AddTable` and `Session.RemoveTable` are proved against `AddDecision` and `RemoveDecision`.
- `Session.CreateEach` is proved against `TemplateFile`.

The properties are proved as lemmas about those functions. Examples:

- The template stays paired: one flow per declaration, each on its own declared stream.
- Every declaration and flow comes from a supported table that some request matches without regard to case; conversely, every request with such a match ends with one of its matches declared.
- Case variants of one table add it once, provided the supported list spells that name one way only and its key is not declared yet (see the point on the inner search below).
- Building is a left fold over the requests.
- The selection store never holds a duplicate or an unsupported table, and never holds more tables than the guard admits.

Where the tool's own messages or comments describe something other than what the code does, the model follows the code:

- **The add guard admits eleven tables.** Option A is offered while `len(selectedTables) < 11`, so an eleventh table can be added. The refusal message nevertheless says "Max (10)". `Menu.AddLimitIsEleven` states the behaviour as coded.
- **An already-declared match does not end the inner search.** In `buildDCR` the `break` is reached only after an insertion. A case-insensitive match whose `Custom-` key is already declared is passed over, and the search goes on to later entries of the supported list. If the supported list held two case variants of a name, a single request could therefore add the second one (`Template.DeclaredMatchDoesNotStopSearch`).
- **Matching is on `lower()` only.** Requests match supported entries by comparing lower-cased names, so `SYSLOG`, `syslog` and `Syslog` all select `Syslog`. A name with a different spelling, such as `synLog`, selects nothing. The declared key and the flow always use the spelling of the supported list.
- **The selection check is exact.** `addTable` refuses a table only when that exact string is already selected. The selection is always made by number from the supported list, so exact comparison is enough to keep it free of duplicates (`Menu.MenuAddConsistent`).

## Model

| member | source | states |
|---|---|---|
| Strings.Strip | dcrCreator.py:65 | `row.text.strip()` never lengthens the text |
| Strings.StripStartRemovesSpace | dcrCreator.py:65 | removing leading whitespace leaves a suffix of the input: everything before it is whitespace, and the result is empty or starts with a non-space character |
| Strings.StripEndRemovesSpace | dcrCreator.py:65 | removing trailing whitespace leaves a prefix of the input: everything after it is whitespace, and the result is empty or ends with a non-space character |
| Strings.StripStartPadding | dcrCreator.py:65 | white space put in front of a string is removed by stripping, leaving the same result as for the string alone |
| Strings.StripKeepsCore | dcrCreator.py:65 | `strip()` returns a contiguous slice `s[a..b]` of its input; every character outside the slice is whitespace, and the slice neither starts nor ends with whitespace |
| Strings.Lower | dcrCreator.py:134 | `lower()` keeps the length, leaves no upper-case ASCII letter, and changes a character only by mapping `A`-`Z` to `a`-`z` |
| Strings.LowerIdempotent | dcrCreator.py:142 | lowering twice equals lowering once, so lowering the already-lowered supported copy again on line 142 changes nothing |
| Strings.Decimal | dcrCreator.py:295-297 | `str(len(tableArray))` is a non-empty string of decimal digits, with no leading zero except for 0 itself |
| Strings.DecimalRoundTrip | dcrCreator.py:295-297 | reading the decimal string back gives the count it was made from |
| Strings.DecimalInjective | dcrCreator.py:295-297 | different counts give different decimal strings |
| Scrape.TableLinks | dcrCreator.py:38-44 | the tables of a link page are no more than its anchors |
| Scrape.TableLinksAppend | dcrCreator.py:38-44 | collecting over two runs of anchors is the concatenation of collecting over each, so order is kept |
| Scrape.TableLinksMembers | dcrCreator.py:41-42 | a name is collected if and only if some anchor with a non-empty `href` that starts with the filter has that text |
| Scrape.GetSupportedTables | dcrCreator.py:23-47 | the loop returns `None` unless the status is 200; otherwise it returns the texts of the filtered anchors, in page order |
| Scrape.Cells | dcrCreator.py:66 | `find_all('td')[:-1]` keeps the row's cells in order except the last one, and none when the row has no cells |
| Scrape.ReservedIgnoresIndent | dcrCreator.py:65 | white space in front of a row's text does not change whether the row is skipped as internal (`_…` or `TenantId…`) |
| Scrape.BodyFields | dcrCreator.py:64-72 | reading the rows after the header gives at most one field per row |
| Scrape.SchemaRows | dcrCreator.py:60-64 | the rows read are those of the last table on the page, in order, without its first (header) row |
| Scrape.TableDetails | dcrCreator.py:50-75 | a schema is returned only on status 200 for a page with a table, and has at most one field per row after the header |
| Scrape.Kept | dcrCreator.py:64-65 | the rows read for fields are never more than the rows after the header |
| Scrape.KeptMembers | dcrCreator.py:64-65 | a row is kept if and only if it is in the body and its stripped text starts with neither `_` nor `TenantId` |
| Scrape.BodyFieldsAppend | dcrCreator.py:64-68 | reading two runs of rows is reading each and concatenating the fields, with `None` absorbing |
| Scrape.BodyFieldsNone | dcrCreator.py:59-72 | reading the rows fails if and only if some non-reserved row has fewer than two cells once the last one is dropped (the `IndexError` path) |
| Scrape.BodyFieldsFromKept | dcrCreator.py:64-68 | on success there is exactly one field per kept row, in order: the name is its first cell and the type is its second |
| Scrape.BodyFieldsStep | dcrCreator.py:64-68 | reading one more row appends its field when it is kept, and nothing when it is reserved |
| Scrape.BodyFieldsPrefixNone | dcrCreator.py:71-72 | once a prefix of the rows fails, the whole body fails |
| Scrape.TableDetailsNone | dcrCreator.py:50-75 | the schema is `None` if and only if the status is not 200, or the page has no table, or a kept row of its last table is malformed |
| Scrape.ReadFields | dcrCreator.py:64-72 | the row loop returns exactly `BodyFields` of the rows, stopping at the first malformed row |
| Scrape.ParseTableDetails | dcrCreator.py:50-75 | `parseTableDetails` equals `TableDetails`: it reads the rows of the last table after its header |
| Template.DataFlow | dcrCreator.py:99-104 | the flow built for a table routes that table: `Custom-<t>` to `Microsoft-<t>` via `logAnalyticsWorkspace` with transform `source` |
| Template.FlowTableInverse | dcrCreator.py:102 | a flow that routes a table is exactly `dataFlow` of that table |
| Template.LoadTemplate | dcrCreator.py:78-96 | the skeleton exists if and only if the fetch succeeded; it then has no declarations and no flows, is paired, and keeps the rest of the document |
| Template.AddStream | dcrCreator.py:140-147 | one request keeps the rest of the template and every declared key, and adds at most one flow |
| Template.Build | dcrCreator.py:128-149 | the requests keep the rest of the template; flows are only added, at most one per request |
| Template.MatchFrom | dcrCreator.py:140-147 | the inner search returns the first supported index whose name matches the request without regard to case and whose key is undeclared, or `None` when no index qualifies |
| Template.AddStreamChanges | dcrCreator.py:140-147 | a request changes the template if and only if some supported entry matches it without regard to case and has an undeclared key |
| Template.UnknownTableSkipped | dcrCreator.py:137-147 | a request that matches no supported table leaves the template unchanged |
| Template.BuildDcr | dcrCreator.py:128-149 | the nested loops compute `Build`: requests handled in order, each inserting at most one declaration and flow |
| Template.AddStreamPaired | dcrCreator.py:142-146 | a request keeps declarations and flows paired: it adds both or neither, under an undeclared key |
| Template.BuildPaired | dcrCreator.py:128-149 | starting from a paired template (such as the loaded skeleton), the result is paired |
| Template.BuildExtends | dcrCreator.py:131-149 | the result keeps the rest of the template, keeps the existing flows as a prefix, and keeps every existing declaration unchanged |
| Template.BuildConcat | dcrCreator.py:137-147 | building over `a + b` is building over `a`, then over `b` |
| Template.AddStreamCovers | dcrCreator.py:140-146 | after one request that has a case-insensitive match in the supported list, some such match is declared |
| Template.BuildCovers | dcrCreator.py:137-147 | after all requests, every request that has a case-insensitive match in the supported list has one of those matches declared under its `Custom-` key |
| Template.BuildProvenance | dcrCreator.py:140-146 | every new declaration and flow belongs to a supported table that some request matches without regard to case, and a declaration holds that table's parsed schema |
| Template.BuildSaturated | dcrCreator.py:140-147 | when every matching supported table is already declared, building changes nothing |
| Template.CaseVariantsAddOnce | dcrCreator.py:133-147 | any non-empty run of case variants of a single supported name adds that name's declaration and flow exactly once |
| Template.SingleTableBuild | dcrCreator.py:266-268 | building a cleared skeleton for one supported table gives one declaration and one flow, for the first supported entry that matches it without regard to case |
| Template.SingleTableCounts | dcrCreator.py:266-268 | building a cleared skeleton for one supported table gives exactly one declaration and one flow |
| Template.SyslogScenario | dcrCreator.py:128-149 | requesting `Syslog` gives the single key `Custom-Syslog`, holding the parsed schema, and the single flow to `Microsoft-Syslog` |
| Template.CaseVariantScenario | dcrCreator.py:133-147 | requesting `SYSLOG`, `syslog` and `Syslog` gives one declaration and one flow, both under the spelling `Syslog` |
| Template.DeclaredMatchDoesNotStopSearch | dcrCreator.py:140-147 | with supported `Syslog` and `SYSLOG`, two requests for `syslog` add both, because a declared match does not stop the search |
| Output.Filename | dcrCreator.py:294-297 | a single table `t` gives `dcr-t-1.json`, and several give `dcr-Combined-<count>.json` with the count in decimal |
| Output.SingleNamesDistinct | dcrCreator.py:297 | different single tables get different file names |
| Output.CombinedNamesGiveCount | dcrCreator.py:295 | two combined file names are equal if and only if the selections have the same size |
| Output.CombinedNeverSingle | dcrCreator.py:294-297 | no combined file name equals a single-table file name |
| Menu.AddDecision | dcrCreator.py:160-183 | the add prompt adds only a supported table that is not yet selected, and is never the capacity refusal |
| Menu.AddSkipsIgnored | dcrCreator.py:165-180 | inputs answered with an error message (not a number, out of range, already selected) do not change the prompt's decision |
| Menu.AddAnswers | dcrCreator.py:164-175 | at the add prompt an interrupt exits, 0 returns to the menu, and an unselected choice `k` adds the `k`-th supported table |
| Menu.AddedByChoice | dcrCreator.py:162-180 | a table is added only when the operator typed its number, and every earlier input was rejected with a message |
| Menu.AfterAdd | dcrCreator.py:168 | adding only appends: the old selection is a prefix, and at most one table is new |
| Menu.MenuAddDecision | dcrCreator.py:238-241 | option A refuses exactly when eleven or more tables are selected |
| Menu.MenuAddConsistent | dcrCreator.py:237-241 | option A keeps the selection free of duplicates, made of supported tables, and within eleven entries |
| Menu.AddLimitIsEleven | dcrCreator.py:238-241 | with ten tables selected an eleventh can be added, and then option A refuses |
| Menu.RemoveDecision | dcrCreator.py:193-209 | the remove prompt removes only a position between 1 and the selection's length |
| Menu.RemoveSkipsIgnored | dcrCreator.py:196-206 | inputs answered with an error message (not a number, out of range) do not change the remove prompt's decision |
| Menu.RemoveAnswers | dcrCreator.py:197-200 | at the remove prompt an interrupt exits, and an in-range `k` removes position `k` |
| Menu.RemovedByChoice | dcrCreator.py:195-206 | a position is removed only when the operator typed that number, and every earlier input was rejected with a message |
| Menu.RemoveAt | dcrCreator.py:199 | `pop(i)` shortens the list by one: earlier entries stay in place and later ones move down by one |
| Menu.RemoveConsistent | dcrCreator.py:199 | popping keeps the store consistent, and the popped table is no longer selected |
| Menu.AfterRemove | dcrCreator.py:199 | a removal takes exactly one occurrence of the chosen entry out of the selection; any other outcome leaves it unchanged |
| Menu.MenuRemoveDecision | dcrCreator.py:246-249 | option B refuses exactly when nothing is selected |
| Menu.TemplateFile | dcrCreator.py:261 | the file written for a list of tables keeps the rest of the template and, from a paired skeleton, holds a paired template |
| Menu.EachFile | dcrCreator.py:268-269 | option E writes as many files as there are supported tables |
| Menu.EachFileAt | dcrCreator.py:268-269 | the `k`-th file option E writes is the single-table template of the `k`-th supported table |
| Menu.MenuRemoveConsistent | dcrCreator.py:245-249 | option B keeps the store consistent |
| Menu.Session.constructor | dcrCreator.py:18-19 | a session starts with an empty selection, which is consistent |
| Menu.Session.AddTable | dcrCreator.py:152-183 | the prompt loop returns the outcome `AddDecision` specifies, the selection changes only by that outcome's append, and a consistent selection below the limit stays consistent |
| Menu.Session.RemoveTable | dcrCreator.py:186-209 | the prompt loop returns the outcome `RemoveDecision` specifies, the selection changes only by that position's pop, and it stays consistent |
| Menu.Session.MenuAdd | dcrCreator.py:237-241 | option A consults the prompt only below the limit, and keeps the store consistent |
| Menu.Session.MenuRemove | dcrCreator.py:245-249 | option B consults the prompt only when something is selected, and keeps the store consistent |
| Menu.Session.CreateTemplate | dcrCreator.py:259-264 | option D writes nothing for an empty selection; otherwise it writes one file, named by `writeDCR`'s rule, holding `Build` of the whole selection |
| Menu.Session.CreateEach | dcrCreator.py:266-271 | option E writes one file per supported table, in list order, each the single-table template; on a cleared skeleton each holds one declaration and one flow |

## Left out

- HTTP (`requests.get`): a page is its status code and its content. The downloads inside `buildDCR` are the `fetch` parameter. Network errors and exceptions raised by `requests` are not modelled.
- HTML parsing (BeautifulSoup): pages are given already split into anchors (href and text) and into tables of rows (text and cell texts). Parser behaviour on malformed HTML is not modelled.
- The `loadDCRTemplate` text handling: the concatenation of `<code>` blocks and `json.loads` are not modelled. The template arrives as a parsed `Dcr`, and a document missing `resources[0].properties` is not modelled.
- `json.dumps`: `buildDCR` returns the template value, not its serialised text.
- The order of `streamDeclarations`: the model holds them in a `map`, so the insertion order that `json.dumps` writes to the file is not represented. In the tool that order is the order of `dataFlows`, which the model does keep as a sequence.
- File output in `writeDCR`: the `templates/` directory, `os.makedirs` and the write itself are left out. Only the file name and the document are modelled.
- The console: every `print`, option C (`printTable`) and the prompts' texts are left out.
- The letter dispatch of `userInput`: the menu is modelled option by option (`MenuAdd`, `MenuRemove`, `CreateTemplate`, `CreateEach`). The choice of option from a typed letter is left out, as is the loop's exit after option E.
- `KeyboardInterrupt` at the two numeric prompts (lines 179-183 and 205-209) is modelled as the outcomes `AddInterrupted` and `RemoveInterrupted`; the `sys.exit()` that follows is not. Option F (lines 274-276) and an interrupt at the letter prompt (lines 284-286) are left out.
- Waiting for input: a prompt reads from a finite sequence of inputs. Running out of that sequence is the outcome `AddInputEnded` or `RemoveInputEnded`, standing for a prompt still waiting for the operator.
- End of input: when standard input actually ends, `input()` raises `EOFError`, which no `except` clause catches (lines 179-183, 205-209, 282-286), so the tool stops with a traceback. This is not modelled.
- `int(input(...))` parsing: an input is already either a number or "not a number".
- The start-up path when `get_supported_tables` or `loadDCRTemplate` returns `None`: the session takes a list and a skeleton. The failure that a `None` there causes later is not modelled.
- `deepcopy`: Dafny values have no aliasing, so the independence of each build from the stored skeleton holds by construction and is not stated separately.
- Lines 112-125, the body of the commented-out `build_dcr`, are indented under `dataFlow`: they are unreachable code in `dataFlow` after its `return` on line 104, and are not modelled.
- Strings.Lower: lower-cases ASCII `A`-`Z` only; Python's `str.lower` also lower-cases non-ASCII letters, which the model does not capture.
- Strings.Strip: uses Python's whitespace set for `str.isspace` character by character; Unicode categories beyond that list are not modelled.
