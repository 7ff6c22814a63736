# PromptVault record store

A model of the record store behind PromptVault, a single-page gallery of prompt
records `{id, text, image, createdAt?, updatedAt?, isStatic?}`. The working set
`prompts` is built by merging the static records shipped in `data.js`
(`PERMANENT_PROMPTS`) with the records kept in the browser's local storage under the
key `promptvault_prompts`. The user can create, edit and delete records, import a
backup file (merge or replace) and copy the working set as a `data.js` literal. Every
change writes the whole working set back to storage and reads it back to check it.

Modules:

- `Records` (records.dfy): the record datatype, the sort key `createdAt || 0`, and
  `Filter` (`Array.prototype.filter`) with its order and membership lemmas.
- `Codec` (codec.dfy): the text the working set is stored as. It stands in for
  `JSON.stringify` / `JSON.parse` and comes with a proved round trip.
- `Merge` (merge.dfy): the id-keyed `Map` of `loadPrompts`, the static tagging, the
  precedence of local over static records, and the stable newest-first sort.
- `Text` (text.dfy): `String.prototype.trim`, with the exact ECMAScript set of
  white-space and line-terminator characters.
- `Vault` (vault.dfy): the class `PromptVault` with the fields `statics`, `prompts`
  and `storage`. It holds the methods `LoadPrompts`, `SaveToStorage`, `ApplyImport`,
  `AppendNew`, `ImportPrompts`, `SavePrompt`, `DeleteFromView` and `CopyForDataJS`.
  Beside them are the functions that specify those methods and the lemmas about those
  functions.

What the browser or the user decides is passed in as a parameter:
- `Backend` says what storage does with a write: keep it, keep something else, or
  throw a quota or other error.
- A `bool` stands for the answer to each `confirm` dialog.
- `now` stands for `Date.now()`, and `suffix` for the random part of a new id.
- `ImportData` is the already parsed content of an imported file.

Three behaviours of the code worth knowing:
- `isStatic` is written to storage. `saveToStorage` serialises the records as they
  are, so a static record saved once comes back as a local record that still carries
  `isStatic: true`. `Winner` keeps such a local record unchanged.
- A merge-mode import can append two entries with the same new id, because
  `existingIds` is computed once before the loop. The working set then holds that id
  twice; the next load keeps only the later entry (`ImportMergeKeepsDuplicates`).
- `importPrompts` reloads from storage whatever the save returned. When the write
  throws, the reload brings back the old stored set, so imported entries that were not
  stored before are lost from view (`ImportPrompts`, last ensures). When the read-back
  check fails, the reload reads whatever the backend kept.

## Model

| member | source | states |
|---|---|---|
| Records.Filter | index.js:154-156 | the filtered sequence holds exactly the elements of the input that pass the predicate |
| Records.FilterConcat | index.js:470 | filtering keeps relative order: the filter of a concatenation is the concatenation of the filters |
| Records.FilterKeepsAll | index.js:470 | a filter that rejects no element returns the sequence unchanged |
| Records.FilterKeepsNone | index.js:158-161 | a filter that accepts no element returns the empty sequence |
| Merge.IndexOf | index.js:356 | the index is that of the first record with the id, or the length when there is none |
| Merge.PutFind | index.js:68-71 | after `map.set(r.id, r)` the map yields r for that id and its old value for every other id |
| Merge.PutIdSet | index.js:68-71 | `map.set` adds exactly its key to the key set |
| Merge.PutDistinct | index.js:65-71 | `map.set` never creates a duplicate key |
| Merge.PutAllFind | index.js:68-71 | after a `forEach` of sets, each id maps to the last record with that id, and ids not mentioned keep their old value |
| Merge.PutAllDistinct | index.js:65-74 | the map's values never hold two records with one id |
| Merge.PutAllIdSet | index.js:65-74 | the keys after the sets are the old keys plus the ids set |
| Merge.PutAllFresh | index.js:68 | setting records with distinct ids into an empty map yields exactly those records, in order |
| Merge.Latest | index.js:71 | a record that is found is a member of the sequence and has the id |
| Merge.LatestFound | index.js:71 | a record is found exactly when some record of the sequence has the id |
| Merge.LatestTagged | index.js:68 | tagging keeps which static record is the last one for an id; only the flag changes |
| Merge.FindMember | index.js:74 | in a map without duplicate keys, every value is what the map yields for its own id |
| Merge.MergeByIdSpec | index.js:64-74 | the merged values have distinct ids and exactly the union of static and local ids. For each id the value is the last local record unchanged if there is one, else the last static record with `isStatic = true` |
| Merge.InsertPermutation | index.js:77-79 | inserting adds exactly one occurrence of the record |
| Merge.InsertMembers | index.js:77-79 | insertion introduces no record other than the inserted one |
| Merge.InsertOrdered | index.js:77-79 | inserting into a newest-first sequence keeps it newest first |
| Merge.InsertStable | index.js:77-79 | the inserted record goes ahead of the records with an equal key |
| Merge.InsertDistinct | index.js:77-79 | inserting a record with a new id keeps the ids distinct |
| Merge.SortNewestFirstSpec | index.js:76-79 | the sorted sequence is non-increasing in `createdAt \|\| 0` and is a permutation of its input |
| Merge.SortStable | index.js:76-79 | records with equal keys keep their input order (the sort is stable) |
| Merge.SortDistinct | index.js:76-79 | sorting keeps the ids distinct |
| Merge.MergedSpec | index.js:64-79 | the working set after load has distinct ids, exactly the union of static and local ids, and the winning record for each id. It is newest first and a stable permutation of the map's values |
| Codec.NatToDigits | index.js:202 | the decimal text of a number is non-empty and all digits |
| Codec.DigitsRoundTrip | index.js:54 | reading back the decimal digits of a number gives the number |
| Codec.DigitRun | index.js:54 | the run of digits at the front is maximal: all digits, followed by a non-digit or the end |
| Codec.DigitRunOf | index.js:54 | a run of digits followed by a non-digit is read exactly to its end |
| Codec.DigitsCanonical | index.js:202 | the digits written for a number are canonical: non-empty, all digits, no leading zero |
| Codec.NatRoundTrip | index.js:54 | a written natural number followed by a non-digit parses back to itself and the text after it |
| Codec.IntRoundTrip | index.js:54 | a written integer, negative ones included, parses back to itself and the following text |
| Codec.CanonicalDigits | index.js:54 | canonical digits are exactly the digits written for the number they denote |
| Codec.NatInverse | index.js:54 | whatever is read as a number is that number's written digits followed by a non-digit or the end |
| Codec.IntInverse | index.js:54 | whatever is read as an integer is that integer as written (no `-0`, no leading zeros) followed by a non-digit or the end |
| Codec.ExpectRoundTrip | index.js:54 | a literal followed by any text is consumed exactly |
| Codec.CharsInverse | index.js:54 | whatever is read as string content is the escaped form of the string read, followed by the closing quote |
| Codec.QuotedInverse | index.js:54 | whatever is read as a string literal is that string as written |
| Codec.EscapedRoundTrip | index.js:54 | the escaped characters of a string followed by a closing quote parse back to the string |
| Codec.QuotedRoundTrip | index.js:54 | a quoted string literal parses back to the string and the text after it |
| Codec.OptIntRoundTrip | index.js:54 | a timestamp or `null` parses back to the same optional value |
| Codec.OptIntInverse | index.js:54 | whatever is read as a timestamp or `null` is that value as written |
| Codec.BoolInverse | index.js:54 | whatever is read as a flag is `true` or `false` as written |
| Codec.BoolRoundTrip | index.js:54 | `true`/`false` parse back to the same flag |
| Codec.RecordRoundTrip | index.js:54 | a written record parses back to the same record, field for field, and the text after it |
| Codec.RecordInverse | index.js:54 | whatever is read as a record is that record as written, field for field in the fixed order |
| Codec.ElementsInverse | index.js:54 | whatever is read as a list is a non-empty list of records as written, with the closing bracket |
| Codec.ElementsRoundTrip | index.js:54 | a non-empty comma-separated list of records and the closing bracket parse back to the same records |
| Codec.SerializeRoundTrip | index.js:202-207 | the stored text is never empty, and parsing it gives back exactly the records written |
| Codec.ParseInverse | index.js:54 | a text that parses is exactly the serialisation of the records read from it |
| Codec.ParseExact | index.js:54 | parsing a text yields some records exactly when the text is their serialisation, so the codec is a bijection between record lists and the texts it writes |
| Text.LeadingSpace | index.js:342-343 | counts the white space at the start: every character before the count is white space, and the one at the count is not |
| Text.TrailingSpace | index.js:342-343 | counts the white space at the end: every character in the counted tail is white space, and the one before it is not |
| Text.TrimSpec | index.js:342-343 | the trimmed text is the middle of the input between two runs of white space, and it neither starts nor ends with white space |
| Text.TrimEmptyIff | index.js:345-353 | the trimmed text is empty exactly when the input is all white space |
| Vault.SaveThenLoad | index.js:200-211 | a write that reads back as written makes the next load's local layer exactly the saved working set |
| Vault.ValidEntries | index.js:153-156 | an entry survives validation exactly when it is in the file and has non-empty id, text and image |
| Vault.ImportRejected | index.js:146-161 | an unreadable file, a non-array, or an array without a valid entry is not imported and leaves the working set unchanged |
| Vault.ImportMergeSpec | index.js:169-175 | merge mode keeps the old working set as an unchanged prefix. The appended suffix holds exactly the valid entries whose id was not present, so no existing record is overwritten |
| Vault.ImportMergeKeepsDuplicates | index.js:170-175 | for any working set and any two valid entries sharing an id it lacks, merge mode appends both, so the ids are no longer distinct. A reload maps that id to the later entry, which is in the new working set, and the earlier one (when it differs) is not |
| Vault.ImportReplaceThenReload | index.js:176-181 | replace mode makes the working set exactly the valid entries. After the reload the ids are those of the static records and the valid entries |
| Vault.EditSpec | index.js:355-364 | an edit sets text, image and `updatedAt` of the first record with the id. It keeps that record's id, `createdAt` and `isStatic`, every other record, and the length |
| Vault.EditAbsent | index.js:355-364 | editing an id that is not present changes nothing |
| Vault.CreateSpec | index.js:365-374 | a create adds one record at index 0 with both timestamps `now`, `isStatic` false and an id starting with `prompt_`; the old records follow unchanged |
| Vault.SavePromptKeepsIdsDistinct | index.js:355-374 | an edit, or a create with a new generated id, keeps the ids distinct |
| Vault.FindIndex | index.js:356 | returns the first index whose record has the id, or -1 when no record has it |
| Vault.DeleteSpec | index.js:470 | delete keeps exactly the records with another id, in their relative order. No record with the id remains; deleting an absent id changes nothing |
| Vault.ProjectKeepsFiveFields | index.js:92-98 | the `data.js` entry keeps id, text, image, createdAt and updatedAt and drops only `isStatic` |
| Vault.PromotionRoundTrip | index.js:92-98 | loading the copied entries as the static source, with empty local storage, gives every record of a working set with distinct ids, tagged static |
| Vault.PromptVault.constructor | index.js:4 | the store starts with an empty working set over the given static records and storage |
| Vault.PromptVault.LoadPrompts | index.js:40-82 | the new working set is the sorted merge of the static records and the parsed local layer, whose properties MergedSpec states |
| Vault.PromptVault.SaveToStorage | index.js:200-225 | storage changes only by the write. The result is success exactly when the value read back equals the text written, a thrown error is reported as such, and success makes the next load's local layer equal the working set |
| Vault.PromptVault.AppendNew | index.js:169-175 | the working set becomes the old one followed by the entries whose id was not in the ids taken before the loop |
| Vault.PromptVault.ApplyImport | index.js:146-178 | reports the validation outcome and leaves the working set as AfterImport describes: unchanged, merged or replaced |
| Vault.PromptVault.ImportPrompts | index.js:139-188 | a rejected import changes nothing. An accepted one writes the serialised import result through the backend, reports a throw as a failed save and otherwise success exactly when the stored text reads back as written, then reloads: the merge of the import result on success, of the old stored set when the save threw |
| Vault.PromptVault.SavePrompt | index.js:336-383 | an empty trimmed text or image is rejected with no change. Otherwise the edit or create is applied and saved; a failed save does not roll back the working set. The result reports a throw as a failed save, and otherwise success exactly when the stored text reads back as written, in which case the next load sees the working set |
| Vault.PromptVault.DeleteFromView | index.js:468-476 | when confirmed, the working set loses every record with the id and is saved, with the save result reported as `saveToStorage` gives it (a throw as a failure, otherwise success exactly when the read-back matches); when not, nothing changes |
| Vault.PromptVault.CopyForDataJS | index.js:85-98 | nothing is produced for an empty working set; otherwise one five-field entry per record, in order |

## Left out

- Rendering, modals, toasts, the prompt count, clipboard access and its fallback,
  file reading and downloads (`exportPrompts`, `sharePrompt`) and event wiring. These
  are DOM and browser services with no store logic.
- The start-up probe `isLocalStorageAvailable`: it writes and removes a test key and
  leaves storage as it was. An unavailable storage is a backend that throws on every
  write (`Throws(WriteFailed)`).
- A `getItem` that throws while loading: it is handled like an absent key.
- JSON text details. The stored text is compact JSON with every field written out in
  a fixed order and `null` for a missing timestamp; `JSON.stringify` omits undefined
  fields instead. Only `"` and `\` are escaped. Pretty-printing (`exportPrompts`, the
  `data.js` literal) is not modelled.
- Codec.Parse: accepts exactly the texts `Codec.Serialize` writes (`Codec.ParseExact`).
  JSON in any other layout that `JSON.parse` would read (white space, another key
  order, escapes other than `\"` and `\\` such as `\n` or `\u0041`, leading zeros,
  `-0`, fractions or exponents, missing or extra fields) gives an empty local layer
  here, as a non-array does in the source.
- The text of the `data.js` literal: `CopyForDataJS` returns the projected entries,
  not the `const PERMANENT_PROMPTS = …;` string.
- Non-string ids, texts and images in imported or stored entries: all three are
  strings here, and a missing or falsy field is "". Entries that are not objects
  (where `p.id` would throw) are not modelled. A `Map` key of `undefined`, which would
  collapse records without an id, is not modelled.
- `createdAt` values that are not integers (NaN, strings): timestamps are integers.
- NewPrompt: one `now` stands for the three `Date.now()` calls at index.js:367, 370
  and 371, so `CreateSpec`'s equal id time, `createdAt` and `updatedAt` hold only if
  the clock does not tick between those calls.
- Record: a record has exactly the six fields `id`, `text`, `image`, `createdAt`,
  `updatedAt` and `isStatic`. Extra fields of a stored or imported entry, which the
  spreads at index.js:68 and index.js:359 and `JSON.stringify` would carry along, are
  dropped. `ProjectKeepsFiveFields`' "drops only `isStatic`" is relative to these six.
- The random id suffix and `Date.now()` are parameters, so a new id is not proved
  unique. `SavePromptKeepsIdsDistinct` takes the freshness of the new id as a
  precondition.
