# Document generator tab — a Dafny model

This project models the document generation tab of a record card ("КРД")
in a desktop records application. The tab:

- collects the `{{name}}` placeholders of a Word (.docx) template kept in the
  database;
- keeps the user's mapping from each placeholder to a column of one of the
  card's tables;
- saves those mappings in one database transaction;
- looks up each mapped value for the card's record;
- renders the template by replacing placeholders paragraph by paragraph, in
  the body, in table cells, and in section headers and footers, while
  keeping the formatting of each paragraph's first run.

The model is split into modules:

| module | file | what it holds |
|---|---|---|
| `Wrappers` | `wrappers.dfy` | `Option` |
| `Text` | `text.dfy` | Python's `str.strip`, `in`, `str.count` and `str.replace` |
| `StringOrder` | `string_order.dfy` | Python's string order; `sorted(set)` as an insertion method |
| `Placeholders` | `placeholders.dfy` | the `\{\{[^{}]+\}\}` scan, the token a key builds, the key a stored field name gives (`strip('{} ')`) |
| `Context` | `context.dfy` | the context dict as an insertion-ordered list of entries |
| `Substitution` | `substitution.dfy` | the per-key replace loop of the renderer, and what it does to texts made of plain pieces and placeholders |
| `Catalog` | `catalog.dfy` | the column catalog and the lookup of the table owning a column |
| `Values` | `values.dfy` | the identifier check, the join column, DD.MM.YYYY dates, cell text |
| `Database` | `database.dfy` | the connection as a class: stored templates, mappings and cells, a transaction with its snapshot, statements the server refuses, and a log of statements sent |
| `Document` | `document.dfy` | paragraphs, runs and hyperlinks; run formatting; the rewrite of one paragraph; the traversal order; the rendering of a list of paragraphs |
| `Generator` | `generator.dfy` | the tab as a class (`DocumentGeneratorTab`) with its operations |

Paragraphs live in one store and are referred to by position. This matches
python-docx, where a merged table cell, or a header linked to the previous
section, yields the same paragraph object more than once. Rendering works in
place on an `array` of paragraph contents. It is specified by `Replay`, a fold
over the visiting order, so a paragraph listed twice is treated again in its
rewritten state.

## Model

| member | source | states |
|---|---|---|
| `Text.StripTrims` | document_generator_tab.py:799-800 | `strip` removes a prefix and a suffix of dropped characters; a non-empty result neither starts nor ends with one |
| `Text.StripUnique` | document_generator_tab.py:696 | stripping dropped characters from around a middle whose ends are kept gives exactly that middle |
| `Text.StripIdempotent` | document_generator_tab.py:799-800 | stripping twice is stripping once |
| `Text.Count` | document_generator_tab.py:617-618 | the count of a placeholder is zero exactly when the placeholder does not occur |
| `Text.ReplaceAll` | document_generator_tab.py:620 | replacing a placeholder that does not occur leaves the text unchanged |
| `Text.ScanPastPrefix` | document_generator_tab.py:620 | text before the first occurrence is copied unchanged |
| `Text.CountPastPrefix` | document_generator_tab.py:618 | text before the first occurrence contributes nothing to the count |
| `Text.ScanPastPlain` | document_generator_tab.py:618-620 | a stretch without the placeholder's first character is copied unchanged and counts nothing |
| `StringOrder.LessIrreflexive` | document_generator_tab.py:337 | no string sorts before itself |
| `StringOrder.LessTransitive` | document_generator_tab.py:337 | the string order is transitive |
| `StringOrder.LessTotal` | document_generator_tab.py:337 | two different strings are ordered one way or the other |
| `StringOrder.LessAsymmetric` | document_generator_tab.py:337 | the string order is asymmetric |
| `StringOrder.Insert` | document_generator_tab.py:337 | inserting into a strictly ascending list keeps it strictly ascending and adds exactly the new element |
| `StringOrder.SortedOf` | document_generator_tab.py:337 | `sorted(set)` is strictly ascending (so free of duplicates) and has exactly the set's elements |
| `StringOrder.AscendingUnique` | document_generator_tab.py:337 | two strictly ascending lists with the same elements are equal, so the sorted list is determined by the set |
| `Placeholders.MatchAt` | document_generator_tab.py:331 | a match at the start of the text is at least five characters long and is a whole `{{name}}` token |
| `Placeholders.FindTokensSound` | document_generator_tab.py:331 | every string `findall` returns is a `{{name}}` token that occurs in the text |
| `Placeholders.FindTokensSkipsPlain` | document_generator_tab.py:331 | text without `{` yields no token and does not disturb the scan after it |
| `Placeholders.FindTokensAtToken` | document_generator_tab.py:331 | a token at the start of the text is matched whole and the scan resumes after it |
| `Placeholders.ExtractWellFormed` | document_generator_tab.py:331 | in a text made of brace-free plain pieces and placeholders, `findall` returns exactly the placeholders, in order |
| `Placeholders.TokenIsToken` | document_generator_tab.py:616 | the token built from a brace-free name is what the extraction pattern matches |
| `Placeholders.KeyOfWrappedName` | document_generator_tab.py:696 | `strip('{} ')` of a name wrapped in braces and spaces is the name, if the name neither starts nor ends with one of them |
| `Placeholders.TokenKeyRoundTrip` | document_generator_tab.py:696 | an extracted token stored as a field name gives a key whose token is the original one |
| `Placeholders.SpacedTokenNotRebuilt` | document_generator_tab.py:696 | a token written `{{ name }}` is extracted, but its key builds `{{name}}`, which differs from it |
| `Context.PutSemantics` | document_generator_tab.py:703 | after `ctx[k] = v`, `k` reads `v` and other keys keep their values; an existing key keeps its place and a new key is appended |
| `Context.PutGet` | document_generator_tab.py:703 | after `ctx[k] = v`, `k` reads `v` and every other key keeps its value |
| `Context.PutKeys` | document_generator_tab.py:703 | `ctx[k] = v` keeps the key order, appending `k` when it is new |
| `Context.PutDistinct` | document_generator_tab.py:703 | assignment keeps the keys distinct |
| `Context.PutFoldDistinct` | document_generator_tab.py:695-703 | the dict built by the mapping loop has distinct keys |
| `Context.PutFoldKeys` | document_generator_tab.py:695-703 | the dict's keys are exactly the keys of the items read |
| `Context.PutFoldLastWins` | document_generator_tab.py:695-703 | a key holds the value of the last item read with that key |
| `Catalog.OwnerIndex` | document_generator_tab.py:492-494 | the position found is the first table listing the column, or past the end when none does |
| `Catalog.Owner` | document_generator_tab.py:491-495 | `None` exactly when no table lists the column; otherwise the first table in catalog order that lists it |
| `Catalog.OwnerIsFirst` | document_generator_tab.py:491-495 | a table that lists the column and comes before every other such table is the one returned |
| `Catalog.NameResolvesToSocialData` | document_generator_tab.py:353-382 | `name` resolves to `social_data`, although six later tables list it too |
| `Catalog.TablesHead` | document_generator_tab.py:355-375 | the catalog has ten tables; the first four are not lookup tables, and the first lists `name` |
| `Catalog.TablesTail` | document_generator_tab.py:376-381 | the last six tables list only `name` |
| `Catalog.OwnerAmongFirst` | document_generator_tab.py:491-495 | when later tables list only a column an earlier table has, the owner is never one of those later tables |
| `Catalog.TableIndex` | document_generator_tab.py:294-295 | the position found is the first entry with that table name, or past the end when none has it |
| `Catalog.ColumnsOf` | document_generator_tab.py:294-295 | a table name absent from the catalog gives no columns; otherwise the columns of an entry with that name |
| `Catalog.ColumnsOfFirst` | document_generator_tab.py:294-295 | the first entry with the name gives its columns |
| `Catalog.OwnerListsColumn` | document_generator_tab.py:491-495 | with distinct table names, a column is among the columns of the table that owns it |
| `Catalog.TablesDistinct` | document_generator_tab.py:355-381 | the catalog's table names are distinct, as dict keys are |
| `Catalog.LookupTablesShadowed` | document_generator_tab.py:376-381 | no column is ever assigned to one of the six lookup tables |
| `Values.NatToString` | document_generator_tab.py:727 | `str(n)` of a natural number is a non-empty string of digits |
| `Values.NatToStringRoundTrip` | document_generator_tab.py:727 | the digits of the year read back as the year |
| `Values.Pad2Digits` | document_generator_tab.py:727 | zero-padding to two places (`02d`) turns a number below 100 into exactly two digits |
| `Values.Pad2RoundTrip` | document_generator_tab.py:727 | the two digits read back as the number |
| `Values.FormatDateRoundTrip` | document_generator_tab.py:725-727 | the date text DD.MM.YYYY reads back as the date it was made from |
| `Values.FormatDateShape` | document_generator_tab.py:727 | a calendar date with a four-digit year is ten characters, with dots at positions 2 and 5 |
| `Values.IdentifierCharacters` | document_generator_tab.py:714 | `^\w+$` accepts exactly a non-empty run of word characters, optionally followed by one final newline |
| `Values.JoinColumn` | document_generator_tab.py:711 | the join column is `id` exactly when the table is `krd`, and `krd_id` otherwise |
| `Values.CellText` | document_generator_tab.py:721-732 | no row or a NULL gives ""; any other non-date value gives its text |
| `Values.DateCellReadsBack` | document_generator_tab.py:725-727 | a date cell gives a text that reads back as that date |
| `Database.MappingsOf` | document_generator_tab.py:687-693 | the selected rows are exactly the stored mappings of the template |
| `Database.Without` | document_generator_tab.py:785-787 | after the delete, exactly the mappings of other templates remain |
| `Database.MappingsOfAppend` | document_generator_tab.py:687-693 | selecting by template distributes over concatenation |
| `Database.MappingsOfAll` | document_generator_tab.py:687-693 | rows that all belong to the template are all selected |
| `Database.MappingsOfNone` | document_generator_tab.py:687-693 | rows of other templates are never selected |
| `Database.MappingsOfWithout` | document_generator_tab.py:785-787 | after the delete the template has no mappings and the other templates keep theirs |
| `Database.InsertByField` | document_generator_tab.py:272 | inserting into a list ordered by field name keeps it ordered and adds exactly the new row |
| `Database.SortByField` | document_generator_tab.py:272 | `ORDER BY field_name` gives the same rows, as a multiset, ordered by field name |
| `Database.ReplaceTemplateMappings` | document_generator_tab.py:784-819 | after delete and insert the template's mappings are exactly the inserted rows, in order; other templates are unaffected |
| `Database.Connection.Transaction` | document_generator_tab.py:780-781 | a transaction opens unless the server refuses or one is already open; opening snapshots the mappings |
| `Database.Connection.DeleteMappingsOf` | document_generator_tab.py:784-788 | the delete removes the template's mappings unless refused |
| `Database.Connection.Insert` | document_generator_tab.py:806-817 | an insert appends the row unless the server refuses it |
| `Database.Connection.CommitTransaction` | document_generator_tab.py:822-823 | a commit closes the open transaction unless refused, and fails when none is open |
| `Database.Connection.RollbackTransaction` | document_generator_tab.py:829 | a rollback restores the snapshot of the open transaction and closes it |
| `Database.Connection.SelectMappings` | document_generator_tab.py:686-693 | the query returns the template's stored mappings |
| `Database.Connection.SelectMappingsByField` | document_generator_tab.py:266-276 | the query returns the template's stored mappings ordered by field name |
| `Database.Connection.SelectTemplate` | document_generator_tab.py:303-308 | the query returns the template's blob, or nothing when there is no row |
| `Database.Connection.SelectCell` | document_generator_tab.py:717-721 | the query returns the cell's row and is logged |
| `Document.FirstRunIndex` | document_generator_tab.py:627 | `runs[0]` is a run, and no run comes before it |
| `Document.NonRuns` | document_generator_tab.py:662-668 | what remains after removing the runs holds no run |
| `Document.RemoveLastKept` | document_generator_tab.py:662-668 | removing the last kept run, counting backwards, keeps one run fewer |
| `Document.KeepFirstRun` | document_generator_tab.py:662-668 | keeping one run keeps the children before the first run, the first run, and the non-runs after it |
| `Document.RunCountUpdate` | document_generator_tab.py:646 | setting a run's text keeps the number of runs |
| `Document.UpdateFirstRun` | document_generator_tab.py:646-668 | after the first run takes new text, it is still the first run, and keeping one run gives the expected content |
| `Document.RestoreStyle` | document_generator_tab.py:649-659 | bold, italic and underline are written back as saved; font name and size only when truthy; colour only when one was saved |
| `Document.RestoreKeepsStyle` | document_generator_tab.py:646-659 | since setting the text keeps the run's formatting, restoring what was saved changes nothing |
| `Document.Rewrite` | document_generator_tab.py:623-674 | a paragraph with runs ends with exactly one run; one without runs becomes a single new Times New Roman run with the new text |
| `Document.RewriteKeepsFirstRun` | document_generator_tab.py:627-668 | the rewrite is the paragraph whose first run took the text and its own formatting back, with only that run kept |
| `Document.RewriteText` | document_generator_tab.py:623-668 | the rewritten paragraph reads as the hyperlinks before the first run, the new text, then the hyperlinks after it |
| `Document.RewriteRunsOnly` | document_generator_tab.py:625-668 | a paragraph of runs only becomes one run with the new text, formatted as the first run was |
| `Document.HyperlinkAfterRunRepeated` | document_generator_tab.py:608-668 | the text of a hyperlink after the first run ends up both in the new text and after it |
| `Document.NothingCountedUntouched` | document_generator_tab.py:610-623 | a paragraph in which nothing was counted is left untouched |
| `Document.ExtractionInRender` | document_generator_tab.py:551-566 | the paragraphs extraction reads are the first paragraphs rendering visits |
| `Document.ReplayPrefix` | document_generator_tab.py:551-566 | visiting one more paragraph replaces in it, in its current state, and adds its count |
| `Document.ReplayAppend` | document_generator_tab.py:548-566 | visiting two lists in turn continues from the store the first left, and the totals add up |
| `Document.RenderParts` | document_generator_tab.py:548-566 | rendering visits body, table cells, then headers and footers; the total is the sum of the three parts' counts |
| `Document.ReplayDistinct` | document_generator_tab.py:551-566 | without repeated paragraphs, each visited paragraph is rewritten from its original content, the others are untouched, and the total is the sum of the paragraphs' own counts |
| `Document.TokensInPrefix` | document_generator_tab.py:328-337 | reading one more paragraph adds its tokens to the set |
| `Document.TokensInMembership` | document_generator_tab.py:328-337 | a token is collected exactly when it is found in one of the listed paragraphs |
| `Document.TokensInSound` | document_generator_tab.py:328-337 | every collected token was found in a listed paragraph |
| `Document.TokensInComplete` | document_generator_tab.py:328-337 | every token found in a listed paragraph is collected |
| `Document.FoundTokensAreTokens` | document_generator_tab.py:328-337 | everything collected has the `{{name}}` shape |
| `Document.FoundTokensIgnoreSections` | document_generator_tab.py:328-337 | the collected tokens depend only on body and table-cell paragraphs, never on headers or footers |
| `Substitution.NoCountNoChange` | document_generator_tab.py:615-623 | when nothing was counted the text is unchanged |
| `Substitution.ApplyKeyAlways` | document_generator_tab.py:617-620 | guarding the replacement by `in` changes nothing: a placeholder that does not occur counts zero and replaces nothing |
| `Substitution.SubstituteStep` | document_generator_tab.py:615-620 | each key's turn replaces every occurrence of its placeholder and adds their number to the count |
| `Substitution.ReplaceOneKey` | document_generator_tab.py:616-620 | on a well-formed text, one key's turn turns exactly its placeholders into the value and counts exactly them |
| `Substitution.SubstituteWellFormed` | document_generator_tab.py:614-620 | with names as keys and brace-free values, the loop replaces every bound placeholder and counts exactly the bound ones |
| `Substitution.UnboundPassThrough` | document_generator_tab.py:614-620 | after the loop, the tokens left in the text are exactly the placeholders whose names are not keys, in order |
| `Substitution.TokenInjective` | document_generator_tab.py:616 | different keys build different placeholders |
| `Substitution.LetterTemplate` | document_generator_tab.py:614-620 | a letter with three placeholders and two bound keys fills those two, keeps the third and counts 2 |
| `Generator.FallbackShape` | document_generator_tab.py:340-346 | the fallback list has sixteen entries |
| `Generator.FallbackNotSorted` | document_generator_tab.py:340-346 | unlike a collected list, the fallback list is not in ascending order |
| `Generator.RowMappingSound` | document_generator_tab.py:793-805 | a saved row has non-empty stripped texts, the template id, and the table that owns its column |
| `Generator.ValidMappingsMembers` | document_generator_tab.py:792-819 | a mapping is inserted exactly when some editor row yields it |
| `Generator.ValidMappingsSound` | document_generator_tab.py:795-814 | every inserted row has non-empty texts free of surrounding whitespace, and the owning table of its column |
| `Generator.RefusedRowRefusesSave` | document_generator_tab.py:816-817 | a row the server refuses makes the save fail |
| `Generator.ValueOf` | document_generator_tab.py:707-732 | a table or column name that fails the identifier check gives "" |
| `Generator.InjectionRefused` | document_generator_tab.py:714-715 | a name holding any character other than a word character (a final newline aside) reads nothing |
| `Generator.ContextOfPrefix` | document_generator_tab.py:695-703 | each mapping read assigns its stripped field name the looked-up value |
| `Generator.ContextDistinct` | document_generator_tab.py:683-705 | the context has no repeated key |
| `Generator.ContextKeys` | document_generator_tab.py:695-703 | the context's keys are exactly the stripped field names of the stored mappings |
| `Generator.LastMappingWins` | document_generator_tab.py:695-703 | when several mappings share a key, the last one read decides its value |
| `Generator.Shown` | document_generator_tab.py:286-296 | a picker shows one of its items, or nothing when it has none; it shows the stored text exactly when that text is one of its items |
| `Generator.EditorRows` | document_generator_tab.py:277-299 | one editor row per mapping read, in the same order |
| `Generator.DisplayedRowSavesBack` | document_generator_tab.py:286-296 | the editor row of a mapping whose texts the pickers offer saves as that same mapping |
| `Generator.ReloadSavesBack` | document_generator_tab.py:277-299 | saving the editor rows of such mappings writes back exactly those mappings, in order |
| `Generator.SavedMappingDisplayable` | document_generator_tab.py:793-814 | a saved mapping is shown unchanged when the template still offers its field name, since its column is listed under its owning table |
| `Generator.SavedMappingsReload` | document_generator_tab.py:254-299 | after a save, reloading the template and saving again writes the same rows, in field-name order |
| `Generator.DocumentGeneratorTab.constructor` | document_generator_tab.py:41-60 | filling the template picker selects the first template, whose placeholders, the catalog and its stored mappings are loaded into the editor; with no template the editor is empty. Either way a selected template comes with the catalog loaded |
| `Generator.DocumentGeneratorTab.OnTemplateChanged` | document_generator_tab.py:244-252 | the current item becomes the new id; a non-zero id loads that template into the editor, and any other leaves the editor as it was |
| `Generator.DocumentGeneratorTab.LoadFieldMappings` | document_generator_tab.py:254-299 | the editor shows the template: its placeholders, the catalog, and one row per stored mapping in field-name order |
| `Generator.DocumentGeneratorTab.FillMappingTable` | document_generator_tab.py:266-299 | one editor row per stored mapping of the template, read in field-name order, each picker showing the stored text when it offers it |
| `Generator.DocumentGeneratorTab.EditMappings` | document_generator_tab.py:384-489 | the user's edits set the mapping editor's rows |
| `Generator.DocumentGeneratorTab.LoadTemplateVariables` | document_generator_tab.py:302-351 | (through `VariablesFor`) no row or an empty blob gives []; a template that does not open gives the fallback list; otherwise the list is strictly ascending and holds exactly the tokens of body and table-cell paragraphs |
| `Generator.DocumentGeneratorTab.LoadDbColumns` | document_generator_tab.py:353-382 | the catalog becomes the fixed table-to-columns list |
| `Generator.DocumentGeneratorTab.SaveFieldMappings` | document_generator_tab.py:774-833 | the save succeeds exactly when no statement is refused. Then the template's old mappings are deleted before the valid rows are inserted, and the log is begin, delete, the inserts, commit. On failure the mappings roll back and no transaction stays open |
| `Generator.DocumentGeneratorTab.WriteMappings` | document_generator_tab.py:784-826 | inside the transaction: delete, the inserts and commit succeed together, or the mappings roll back to the snapshot |
| `Generator.DocumentGeneratorTab.InsertRows` | document_generator_tab.py:791-819 | the insert loop succeeds exactly when no valid row is refused; then it appends exactly the valid rows, in editor order |
| `Generator.DocumentGeneratorTab.GetValueFromDatabase` | document_generator_tab.py:707-732 | the text is the looked-up cell text; a name that fails the identifier check issues no query; otherwise exactly one query, on the join column |
| `Generator.DocumentGeneratorTab.GetContextData` | document_generator_tab.py:679-705 | the context is the fold of `ctx[strip('{} ')(field)] = value` over the template's stored mappings |
| `Generator.DocumentGeneratorTab.ReplaceTextInElement` | document_generator_tab.py:597-677 | the paragraph is updated in place to its replaced content; every other paragraph is untouched; the count is that of the substitution (0 for an empty paragraph) |
| `Generator.DocumentGeneratorTab.SubstituteText` | document_generator_tab.py:614-620 | the loop over the context computes the substitution's text and count |
| `Generator.DocumentGeneratorTab.RewriteParagraph` | document_generator_tab.py:623-674 | the paragraph becomes its rewrite with the new text, in place |
| `Generator.DocumentGeneratorTab.RemoveLaterRuns` | document_generator_tab.py:661-668 | removing the runs from the last one down to the second keeps only the first run |
| `Generator.DocumentGeneratorTab.ReplaceInParagraphs` | document_generator_tab.py:548-566 | visiting the listed paragraphs in order leaves the store and the total that the rendering fold gives |
| `Generator.DocumentGeneratorTab.GenerateDocument` | document_generator_tab.py:501-595 | it stops without saving when the picker holds no template. After a failed save it stops with the mappings rolled back and no transaction open. Otherwise the mappings are replaced and the template is rendered with the saved mappings |
| `Generator.DocumentGeneratorTab.RenderTemplate` | document_generator_tab.py:515-573 | a missing or empty template, or one that does not open, leaves the previous document. Otherwise the kept document is the template with every visited paragraph replaced, and the count is the rendering total |

## Left out

- The Qt user interface is not modelled: widgets, message boxes, and adding or deleting templates. The template picker is reduced to its current item (`currentTemplate`) and the selection handler (`OnTemplateChanged`). The first template in name order is a constructor parameter, because template names are not modelled. Editing the mapping table is reduced to `EditMappings`, which sets its rows.
- Audit logging, console output and the global exception hook are not modelled.
- Temporary files and their deletion are not modelled. The generated document is kept as a value (`generatedDocument`) instead of a file path, and saving it to disk (`save_document`) is not modelled.
- The .docx parser is a parameter (`parse`). Opening a template either gives a document or fails, and the failure covers any exception python-docx raises.
- An editor row holds the texts its two pickers show (`Shown`), not the widgets. A picker behaves as a non-editable Qt combo box: it shows the requested text when that text is one of its items, and otherwise its first item.
- `ORDER BY field_name` is modelled as a stable sort on code-point order (`SortByField`). SQL leaves the order of equal names open, and PostgreSQL may compare names under a collation other than code-point order.
- A failed SELECT and a SELECT that returns no row are the same case in the model: a key missing from the connection's maps.
- Rows are returned in the order they are stored (mappings in insertion order). SQL gives no order without `ORDER BY`, so a server may return another order. The last mapping for a key then wins in that order instead.
- A NULL template blob reads as empty, so rendering reports `TemplateEmpty`. In the source, rendering raises on `bytes(None)` and extraction treats it as empty. Both are error outcomes that produce no document.
- Values.IsWordChar: `\w` is limited to ASCII letters, digits and `_`. Python's Unicode `\w` also accepts other letters and digits, such as Cyrillic ones. Names taken from the catalog are all ASCII.
- Python's string order is modelled as code-point order on characters. The model has no Unicode normalisation and no case folding.
- Nested tables inside cells are not visited, in the model as in the source loops.
- Runs inside hyperlinks are not paragraph runs (python-docx 1.x). The model's hyperlink child stands for them, so the paragraph text includes hyperlink text. Older python-docx versions exclude hyperlink text from `paragraph.text`; that behaviour is not modelled.
- Setting `font.name` in python-docx writes both the `w:ascii` and the `w:hAnsi` font attributes. The model keeps one font name per run and does not tell these attributes apart.
- Rendering visits headers and footers, but collecting placeholders does not. The model follows the code: the collected list never holds a placeholder that appears only in a header or footer.
- Generator.FallbackShape: only the length of the fallback list (sixteen) is stated as a property; its contents are the literal list in `Fallback`.
- Text.ReplaceAll: the length of the replaced text is not stated. It would need non-linear arithmetic, and nothing else here depends on it.
- Rendering the body, table cells, and headers and footers is one loop over a flattened visiting order (`RenderOrder`) instead of the nested loops. `RenderParts` states that this is the three parts in turn.
- Several inline loops of the source are separate methods here (`FillMappingTable`, `InsertRows`, `WriteMappings`, `SubstituteText`, `RewriteParagraph`, `RemoveLaterRuns`, `ReplaceInParagraphs`, `RenderTemplate`). Each does exactly what the inlined code does.
- Database.Connection.Transaction: a BEGIN while a transaction is open is refused. PostgreSQL instead accepts it with a warning and keeps the open transaction. Every operation of the model that opens a transaction closes it before returning, so this case does not arise.
