/** The record store of `index.js`: the working set `prompts`, the static records of
    `data.js`, and the browser's local storage, with the operations that change them.

    Whatever the browser or the user decides is a parameter: what the storage backend
    does with a write (`Backend`), the answer to a `confirm` dialog, the value of
    `Date.now()` and the random suffix of a new id, and the already parsed contents of an
    imported file. */
module Vault {
  import opened Records
  import opened Codec
  import opened Merge
  import opened Text

  /** The key the working set is stored under. */
  const StorageKey: string := "promptvault_prompts"

  // ----- persistence -----

  /** Why `localStorage.setItem` threw: the quota (`QuotaExceededError`) or anything else. */
  datatype StorageError = QuotaExceeded | WriteFailed

  /** What the storage backend does with a write: store the value, store something else
      (silent truncation or corruption), or throw. */
  datatype Backend = Accepts | Corrupts(stored: string) | Throws(error: StorageError)

  /** The outcome of `saveToStorage`: `true` is `Saved`; the other two are its `false`. */
  datatype SaveResult = Saved | VerificationFailed | Failed(error: StorageError)

  /** The storage after `setItem(StorageKey, data)` under the given backend. */
  function Written(storage: map<string, string>, data: string, backend: Backend): map<string, string> {
    match backend
    case Accepts => storage[StorageKey := data]
    case Corrupts(v) => storage[StorageKey := v]
    case Throws(_) => storage
  }

  /** The local records `loadPrompts` reads: the parsed array under the key; nothing when the
      key is absent, the value is empty, or it does not parse as an array of records. */
  function LocalLayer(storage: map<string, string>): seq<Record> {
    if StorageKey in storage && storage[StorageKey] != "" then
      match Parse(storage[StorageKey])
      case Some(rs) => rs
      case None => []
    else []
  }

  /** A write that is read back unchanged restores the working set exactly on the next load. */
  lemma SaveThenLoad(storage: map<string, string>, prompts: seq<Record>, backend: Backend)
    requires !backend.Throws?
    requires Written(storage, Serialize(prompts), backend)[StorageKey] == Serialize(prompts)
    ensures LocalLayer(Written(storage, Serialize(prompts), backend)) == prompts
  {
    SerializeRoundTrip(prompts);
  }

  // ----- import -----

  /** The contents of an imported file: text that `JSON.parse` rejects, a JSON value that is
      not an array, or an array of entries (a missing or empty field reads as ""). */
  datatype ImportData = Unreadable | NotArray | Entries(items: seq<Record>)

  /** The messages `importPrompts` ends with; `Imported` carries the number of valid entries. */
  datatype ImportOutcome = ReadFailed | InvalidFormat | NoValidPrompts | Imported(found: nat)

  /** The filter `p.id && p.text && p.image`. */
  predicate IsValidEntry(r: Record) {
    r.id != "" && r.text != "" && r.image != ""
  }

  /** The entries that survive validation, in the order of the file. */
  function ValidEntries(items: seq<Record>): (valid: seq<Record>)
    ensures forall r :: r in valid <==> r in items && IsValidEntry(r)
  {
    Filter(items, IsValidEntry)
  }

  /** `!existingIds.includes(p.id)`. */
  function NotIn(existingIds: seq<string>): Record -> bool {
    (r: Record) => r.id !in existingIds
  }

  /** One more entry of the merge loop: it is appended exactly when its id was not taken. */
  lemma AppendStep(before: seq<Record>, valid: seq<Record>, i: nat, existingIds: seq<string>)
    requires i < |valid|
    ensures before + Filter(valid[..i + 1], NotIn(existingIds))
      == if valid[i].id !in existingIds
         then before + Filter(valid[..i], NotIn(existingIds)) + [valid[i]]
         else before + Filter(valid[..i], NotIn(existingIds))
  {
    var kept := Filter(valid[..i], NotIn(existingIds));
    FilterStep(valid, i, NotIn(existingIds));
    if valid[i].id !in existingIds {
      assert before + (kept + [valid[i]]) == before + kept + [valid[i]];
    } else {
      assert kept + [] == kept;
    }
  }

  function ImportStatus(data: ImportData): ImportOutcome {
    match data
    case Unreadable => ReadFailed
    case NotArray => InvalidFormat
    case Entries(items) =>
      if ValidEntries(items) == [] then NoValidPrompts else Imported(|ValidEntries(items)|)
  }

  /** `prompts` after the import step, before it is saved and reloaded. In merge mode the
      valid entries whose id was not present before are appended; in replace mode the valid
      entries become the working set; nothing changes when the import is rejected. */
  function AfterImport(prompts: seq<Record>, data: ImportData, mergeMode: bool): seq<Record> {
    if ImportStatus(data).Imported? then
      if mergeMode then prompts + Filter(ValidEntries(data.items), NotIn(Ids(prompts)))
      else ValidEntries(data.items)
    else prompts
  }

  /** A rejected import leaves the working set alone: an unreadable file, a non-array, or an
      array without a single valid entry. */
  lemma ImportRejected(prompts: seq<Record>, data: ImportData, mergeMode: bool)
    requires data.Unreadable? || data.NotArray? || (data.Entries? && forall r :: r in data.items ==> !IsValidEntry(r))
    ensures !ImportStatus(data).Imported?
    ensures AfterImport(prompts, data, mergeMode) == prompts
  {
    if data.Entries? {
      FilterKeepsNone(data.items, IsValidEntry);
    }
  }

  /** Merge mode: the old working set stays as an untouched prefix; the appended suffix holds
      exactly the valid entries whose id was not already present, in file order, so
      existing records are never overwritten. */
  lemma ImportMergeSpec(prompts: seq<Record>, items: seq<Record>)
    requires ValidEntries(items) != []
    ensures var r := AfterImport(prompts, Entries(items), true);
      && |prompts| <= |r|
      && r[..|prompts|] == prompts
      && (forall x :: x in r[|prompts|..] <==> x in items && IsValidEntry(x) && x.id !in IdSet(prompts))
  {
    var r := AfterImport(prompts, Entries(items), true);
    var suffix := Filter(ValidEntries(items), NotIn(Ids(prompts)));
    assert r == prompts + suffix;
    assert r[..|prompts|] == prompts;
    assert r[|prompts|..] == suffix;
    forall id: string ensures id in Ids(prompts) <==> id in IdSet(prompts) {
      if id in Ids(prompts) {
        var k :| 0 <= k < |prompts| && Ids(prompts)[k] == id;
        assert prompts[k] in prompts;
      }
      if id in IdSet(prompts) {
        var y :| y in prompts && y.id == id;
        var k :| 0 <= k < |prompts| && prompts[k] == y;
        assert Ids(prompts)[k] == id;
      }
    }
  }

  /** `existingIds` is taken once, before the loop: two valid entries with the same new id
      are both appended, so after a merge-mode import the working set holds one id twice.
      The next load keeps only the later entry. */
  lemma ImportMergeKeepsDuplicates(statics: seq<Record>, prompts: seq<Record>, a: Record, b: Record)
    requires IsValidEntry(a) && IsValidEntry(b) && a.id == b.id && a.id !in Ids(prompts)
    ensures AfterImport(prompts, Entries([a, b]), true) == prompts + [a, b]
    ensures !DistinctIds(prompts + [a, b])
    ensures Find(MergeById(statics, prompts + [a, b]), a.id) == Some(b)
    ensures b in Merged(statics, prompts + [a, b])
    ensures a != b ==> a !in Merged(statics, prompts + [a, b])
  {
    FilterKeepsAll([a, b], IsValidEntry);
    FilterKeepsAll([a, b], NotIn(Ids(prompts)));
    var locals := prompts + [a, b];
    var n := |prompts|;
    assert locals[n] == a && locals[n + 1] == b;
    assert Latest(locals, a.id) == Some(b);
    assert a.id in IdSet(locals) by {
      assert b in locals;
    }
    MergeByIdSpec(statics, locals);
    MergedSpec(statics, locals);
  }

  /** Replace mode followed by the reload: the working set holds exactly the ids of the
      static records and of the valid entries, so static records reappear. */
  lemma ImportReplaceThenReload(statics: seq<Record>, prompts: seq<Record>, items: seq<Record>)
    requires ValidEntries(items) != []
    ensures AfterImport(prompts, Entries(items), false) == ValidEntries(items)
    ensures IdSet(Merged(statics, AfterImport(prompts, Entries(items), false)))
              == IdSet(statics) + IdSet(ValidEntries(items))
  {
    MergedSpec(statics, ValidEntries(items));
  }

  // ----- create and edit -----

  /** What `savePrompt` reports: a rejected form, or the edit or creation was applied and
      `saveToStorage` returned `save`. */
  datatype FormOutcome = EmptyText | EmptyImage | Applied(save: SaveResult)

  /** The id `'prompt_' + Date.now() + '_' + <random suffix>`. */
  function NewId(now: nat, suffix: string): string {
    "prompt_" + NatToDigits(now) + "_" + suffix
  }

  /** The record created by the form. */
  function NewPrompt(text: string, image: string, now: nat, suffix: string): Record {
    Record(NewId(now, suffix), text, image, Some(now), Some(now), false)
  }

  /** `prompts` after a valid form: with an edit id, the first record with that id gets the
      new text, image and update time (nothing changes when there is none); without one, a
      new record goes to the front. */
  function AfterSavePrompt(prompts: seq<Record>, editId: string, text: string, image: string,
                           now: nat, suffix: string): seq<Record> {
    if editId != "" then
      var i := IndexOf(prompts, editId);
      if i < |prompts| then prompts[i := prompts[i].(text := text, image := image, updatedAt := Some(now))]
      else prompts
    else [NewPrompt(text, image, now, suffix)] + prompts
  }

  /** An edit changes the text, image and update time of the first record with that id
      (the one `findIndex` returns), and nothing else: not its id, creation time or static
      flag, nor any other record, nor the length or order of the working set. */
  lemma EditSpec(prompts: seq<Record>, editId: string, text: string, image: string, now: nat, suffix: string)
    requires editId != "" && editId in IdSet(prompts)
    ensures var r := AfterSavePrompt(prompts, editId, text, image, now, suffix);
      var i := IndexOf(prompts, editId);
      && i < |prompts| && prompts[i].id == editId
      && (forall j :: 0 <= j < i ==> prompts[j].id != editId)
      && |r| == |prompts|
      && r[i] == Record(editId, text, image, prompts[i].createdAt, Some(now), prompts[i].isStatic)
      && (forall j :: 0 <= j < |r| && j != i ==> r[j] == prompts[j])
  {
    var y :| y in prompts && y.id == editId;
    var k :| 0 <= k < |prompts| && prompts[k] == y;
    assert IndexOf(prompts, editId) <= k;
  }

  /** Editing an id that is not in the working set changes nothing. */
  lemma EditAbsent(prompts: seq<Record>, editId: string, text: string, image: string, now: nat, suffix: string)
    requires editId != "" && editId !in IdSet(prompts)
    ensures AfterSavePrompt(prompts, editId, text, image, now, suffix) == prompts
  {
  }

  /** A creation adds one record, at index 0, with both timestamps set to now and an id that
      starts with `prompt_`; the rest of the working set follows unchanged. */
  lemma CreateSpec(prompts: seq<Record>, text: string, image: string, now: nat, suffix: string)
    ensures var r := AfterSavePrompt(prompts, "", text, image, now, suffix);
      && |r| == |prompts| + 1
      && r[1..] == prompts
      && r[0].text == text && r[0].image == image
      && r[0].createdAt == Some(now) && r[0].updatedAt == Some(now) && !r[0].isStatic
      && r[0].id[..7] == "prompt_"
  {
  }

  /** An edit keeps the ids of the working set distinct, and so does a creation whose
      generated id is new. */
  lemma SavePromptKeepsIdsDistinct(prompts: seq<Record>, editId: string, text: string, image: string,
                                   now: nat, suffix: string)
    requires DistinctIds(prompts)
    requires editId == "" ==> NewId(now, suffix) !in IdSet(prompts)
    ensures DistinctIds(AfterSavePrompt(prompts, editId, text, image, now, suffix))
  {
    var r := AfterSavePrompt(prompts, editId, text, image, now, suffix);
    if editId == "" {
      forall i, j | 0 <= i < j < |r| ensures r[i].id != r[j].id {
        if i == 0 {
          assert r[j] == prompts[j - 1] && prompts[j - 1] in prompts;
        } else {
          assert r[i] == prompts[i - 1] && r[j] == prompts[j - 1];
        }
      }
    }
  }

  /** `prompts.findIndex(p => p.id === id)`. */
  method FindIndex(s: seq<Record>, id: string) returns (index: int)
    ensures -1 <= index < |s|
    ensures index == -1 ==> forall j :: 0 <= j < |s| ==> s[j].id != id
    ensures index != -1 ==> s[index].id == id && forall j :: 0 <= j < index ==> s[j].id != id
  {
    index := 0;
    while index < |s|
      invariant 0 <= index <= |s|
      invariant forall j :: 0 <= j < index ==> s[j].id != id
    {
      if s[index].id == id {
        return;
      }
      index := index + 1;
    }
    index := -1;
  }

  // ----- delete -----

  /** `p => p.id !== id`. */
  function IdIsNot(id: string): Record -> bool {
    (r: Record) => r.id != id
  }

  /** `prompts.filter(p => p.id !== id)`. */
  function Without(prompts: seq<Record>, id: string): seq<Record> {
    Filter(prompts, IdIsNot(id))
  }

  /** Delete keeps exactly the records with another id, in their relative order; deleting
      an absent id changes nothing. */
  lemma DeleteSpec(prompts: seq<Record>, id: string)
    ensures forall r :: r in Without(prompts, id) <==> r in prompts && r.id != id
    ensures id !in IdSet(Without(prompts, id))
    ensures id !in IdSet(prompts) ==> Without(prompts, id) == prompts
    ensures forall a, b :: prompts == a + b ==> Without(prompts, id) == Without(a, id) + Without(b, id)
  {
    if id !in IdSet(prompts) {
      FilterKeepsAll(prompts, IdIsNot(id));
    }
    forall a, b | prompts == a + b ensures Without(prompts, id) == Without(a, id) + Without(b, id) {
      FilterConcat(a, b, IdIsNot(id));
    }
  }

  // ----- the data.js literal -----

  /** The five fields `copyForDataJS` keeps of each record. */
  datatype DataJsEntry = DataJsEntry(
    id: string,
    text: string,
    image: string,
    createdAt: Option<int>,
    updatedAt: Option<int>)

  function Project(r: Record): DataJsEntry {
    DataJsEntry(r.id, r.text, r.image, r.createdAt, r.updatedAt)
  }

  /** An entry of `PERMANENT_PROMPTS` as `loadPrompts` reads it (no `isStatic` field). */
  function AsStatic(e: DataJsEntry): Record {
    Record(e.id, e.text, e.image, e.createdAt, e.updatedAt, false)
  }

  /** The projection keeps exactly the five fields: it forgets `isStatic` and nothing else. */
  lemma ProjectKeepsFiveFields(r: Record, e: DataJsEntry)
    ensures Project(AsStatic(e)) == e
    ensures AsStatic(Project(r)) == r.(isStatic := false)
    ensures forall r' :: Project(r) == Project(r') <==> r.(isStatic := false) == r'.(isStatic := false)
  {
  }

  /** Pasting the copied entries into `data.js` and loading with empty local storage gives
      back every record of a working set without duplicate ids, each tagged as static. */
  lemma PromotionRoundTrip(prompts: seq<Record>)
    requires DistinctIds(prompts)
    ensures var statics := seq(|prompts|, i requires 0 <= i < |prompts| => AsStatic(Project(prompts[i])));
      multiset(Merged(statics, [])) == multiset(Tagged(prompts))
  {
    var statics := seq(|prompts|, i requires 0 <= i < |prompts| => AsStatic(Project(prompts[i])));
    assert Tagged(statics) == Tagged(prompts);
    assert DistinctIds(Tagged(prompts));
    PutAllFresh(Tagged(prompts));
    SortNewestFirstSpec(Tagged(prompts));
  }

  // ----- the store -----

  class PromptVault {
    /** `PERMANENT_PROMPTS` from `data.js`. */
    const statics: seq<Record>
    /** The working set, the global `prompts`. */
    var prompts: seq<Record>
    /** The browser's local storage. */
    var storage: map<string, string>

    constructor (staticPrompts: seq<Record>, stored: map<string, string>)
      ensures statics == staticPrompts && storage == stored && prompts == []
    {
      statics := staticPrompts;
      storage := stored;
      prompts := [];
    }

    /** `loadPrompts`: merge the static records and the stored local records by id and sort
        the result newest first. MergedSpec states what the new working set is. */
    method LoadPrompts()
      modifies this`prompts
      ensures prompts == Merged(statics, LocalLayer(storage))
    {
      var localPrompts: seq<Record> := [];
      if StorageKey in storage {
        var stored := storage[StorageKey];
        if stored != "" {
          match Parse(stored) {
            case Some(parsed) => localPrompts := parsed;
            case None =>
          }
        }
      }
      var promptMap: seq<Record> := [];
      var i := 0;
      while i < |statics|
        invariant 0 <= i <= |statics|
        invariant promptMap == PutAll([], Tagged(statics)[..i])
      {
        PutAllStep([], Tagged(statics), i);
        promptMap := Put(promptMap, statics[i].(isStatic := true));
        i := i + 1;
      }
      assert Tagged(statics)[..i] == Tagged(statics);
      ghost var base := promptMap;
      i := 0;
      while i < |localPrompts|
        invariant 0 <= i <= |localPrompts|
        invariant promptMap == PutAll(base, localPrompts[..i])
      {
        PutAllStep(base, localPrompts, i);
        promptMap := Put(promptMap, localPrompts[i]);
        i := i + 1;
      }
      assert localPrompts[..i] == localPrompts;
      prompts := SortNewestFirst(promptMap);
    }

    /** `saveToStorage`: write the serialised working set, read it back, and succeed only if
        the read-back value is the one written. A success means the next load sees exactly
        the current working set as its local layer. */
    method SaveToStorage(backend: Backend) returns (result: SaveResult)
      modifies this`storage
      ensures storage == Written(old(storage), Serialize(prompts), backend)
      ensures backend.Throws? ==> result == Failed(backend.error)
      ensures !backend.Throws? ==> (result == Saved <==> storage[StorageKey] == Serialize(prompts))
      ensures !backend.Throws? ==> !result.Failed?
      ensures result == Saved ==> LocalLayer(storage) == prompts
    {
      var dataToSave := Serialize(prompts);
      match backend {
        case Throws(e) =>
          return Failed(e);
        case Accepts =>
          storage := storage[StorageKey := dataToSave];
        case Corrupts(v) =>
          storage := storage[StorageKey := v];
      }
      var verification := storage[StorageKey];
      if verification == dataToSave {
        SaveThenLoad(old(storage), prompts, backend);
        result := Saved;
      } else {
        result := VerificationFailed;
      }
    }

    /** The body of the `onload` handler of `importPrompts` up to the save: validate the
        entries, then append the new ones (merge mode) or take them all (replace mode). */
    method ApplyImport(data: ImportData, mergeMode: bool) returns (outcome: ImportOutcome)
      modifies this`prompts
      ensures outcome == ImportStatus(data)
      ensures prompts == AfterImport(old(prompts), data, mergeMode)
    {
      match data {
        case Unreadable =>
          return ReadFailed;
        case NotArray =>
          return InvalidFormat;
        case Entries(items) =>
          var validPrompts := ValidEntries(items);
          if |validPrompts| == 0 {
            return NoValidPrompts;
          }
          if mergeMode {
            AppendNew(validPrompts);
          } else {
            prompts := validPrompts;
          }
          outcome := Imported(|validPrompts|);
      }
    }

    /** The merge-mode loop: `existingIds` is taken once, then every valid entry whose id is
        not among them is pushed. */
    method AppendNew(validPrompts: seq<Record>)
      modifies this`prompts
      ensures prompts == old(prompts) + Filter(validPrompts, NotIn(Ids(old(prompts))))
    {
      var existingIds := Ids(prompts);
      ghost var before := prompts;
      var i := 0;
      while i < |validPrompts|
        invariant 0 <= i <= |validPrompts|
        invariant prompts == before + Filter(validPrompts[..i], NotIn(existingIds))
      {
        var p := validPrompts[i];
        AppendStep(before, validPrompts, i, existingIds);
        if p.id !in existingIds {
          prompts := prompts + [p];
        }
        i := i + 1;
      }
      assert validPrompts[..i] == validPrompts;
    }

    /** `importPrompts` with the user's answer to the merge/replace dialog: the import step,
        then `saveToStorage` and `loadPrompts`. When the write throws, the reload brings back
        the old stored set, so imported entries that were not stored before are lost from
        view; when the read-back check fails, the reload reads whatever the backend kept. */
    method ImportPrompts(data: ImportData, mergeMode: bool, backend: Backend)
      returns (outcome: ImportOutcome, save: Option<SaveResult>)
      modifies this
      ensures outcome == ImportStatus(data)
      ensures !outcome.Imported? ==> prompts == old(prompts) && storage == old(storage) && save == None
      ensures outcome.Imported? ==> save.Some? && prompts == Merged(statics, LocalLayer(storage))
      ensures outcome.Imported? ==>
        storage == Written(old(storage), Serialize(AfterImport(old(prompts), data, mergeMode)), backend)
      ensures outcome.Imported? && backend.Throws? ==> save == Some(Failed(backend.error))
      ensures outcome.Imported? && !backend.Throws? ==>
        (save == Some(Saved) <==> storage[StorageKey] == Serialize(AfterImport(old(prompts), data, mergeMode)))
      ensures save == Some(Saved) ==> prompts == Merged(statics, AfterImport(old(prompts), data, mergeMode))
      ensures save.Some? && save.value.Failed? ==> prompts == Merged(statics, LocalLayer(old(storage)))
    {
      outcome := ApplyImport(data, mergeMode);
      if !outcome.Imported? {
        return outcome, None;
      }
      ghost var imported := prompts;
      ghost var stored := storage;
      var result := SaveToStorage(backend);
      assert result.Failed? ==> storage == stored;
      assert result == Saved ==> LocalLayer(storage) == imported;
      LoadPrompts();
      save := Some(result);
    }

    /** `savePrompt` with the form's fields: trim the text and the image URL, reject either
        when empty, otherwise edit (non-empty edit id) or create, then save. */
    method SavePrompt(editId: string, rawText: string, rawImage: string, now: nat, suffix: string,
                      backend: Backend) returns (outcome: FormOutcome)
      modifies this`prompts, this`storage
      ensures Trim(rawText) == [] ==> outcome == EmptyText
      ensures Trim(rawText) != [] && Trim(rawImage) == [] ==> outcome == EmptyImage
      ensures outcome.EmptyText? || outcome.EmptyImage? ==> prompts == old(prompts) && storage == old(storage)
      ensures Trim(rawText) != [] && Trim(rawImage) != [] ==>
        && outcome.Applied?
        && prompts == AfterSavePrompt(old(prompts), editId, Trim(rawText), Trim(rawImage), now, suffix)
        && storage == Written(old(storage), Serialize(prompts), backend)
      ensures outcome.Applied? && backend.Throws? ==> outcome.save == Failed(backend.error)
      ensures outcome.Applied? && !backend.Throws? ==>
        (outcome.save == Saved <==> storage[StorageKey] == Serialize(prompts))
      ensures outcome.Applied? && outcome.save == Saved ==> LocalLayer(storage) == prompts
    {
      var text := Trim(rawText);
      var image := Trim(rawImage);
      if text == [] {
        return EmptyText;
      }
      if image == [] {
        return EmptyImage;
      }
      if editId != "" {
        var index := FindIndex(prompts, editId);
        assert index == -1 <==> IndexOf(prompts, editId) == |prompts|;
        assert index != -1 ==> index == IndexOf(prompts, editId);
        if index != -1 {
          prompts := prompts[index := prompts[index].(text := text, image := image, updatedAt := Some(now))];
        }
      } else {
        var newPrompt := NewPrompt(text, image, now, suffix);
        prompts := [newPrompt] + prompts;
      }
      var result := SaveToStorage(backend);
      outcome := Applied(result);
    }

    /** `deleteFromView` with the answer to its confirmation dialog: drop every record with
        the id, then save. */
    method DeleteFromView(confirmed: bool, id: string, backend: Backend) returns (save: Option<SaveResult>)
      modifies this`prompts, this`storage
      ensures !confirmed ==> prompts == old(prompts) && storage == old(storage) && save == None
      ensures confirmed ==> save.Some? && prompts == Without(old(prompts), id)
      ensures confirmed ==> storage == Written(old(storage), Serialize(prompts), backend)
      ensures confirmed && backend.Throws? ==> save == Some(Failed(backend.error))
      ensures confirmed && !backend.Throws? ==>
        (save == Some(Saved) <==> storage[StorageKey] == Serialize(prompts))
      ensures save == Some(Saved) ==> LocalLayer(storage) == prompts
    {
      if !confirmed {
        return None;
      }
      prompts := Without(prompts, id);
      var result := SaveToStorage(backend);
      save := Some(result);
    }

    /** `copyForDataJS`: nothing when the working set is empty, else the five-field
        projection of every record, in order. */
    method CopyForDataJS() returns (entries: Option<seq<DataJsEntry>>)
      ensures entries.None? <==> prompts == []
      ensures entries.Some? ==> |entries.value| == |prompts|
      ensures entries.Some? ==> forall i :: 0 <= i < |prompts| ==>
        AsStatic(entries.value[i]) == prompts[i].(isStatic := false)
    {
      if |prompts| == 0 {
        return None;
      }
      var current := prompts;
      var cleanPrompts := seq(|current|, i requires 0 <= i < |current| => Project(current[i]));
      entries := Some(cleanPrompts);
    }
  }
}
