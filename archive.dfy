/**
 * The program's configuration object and the steps that read and update it:
 * choosing the form, building the field map, processing submissions one by
 * one, listing the form's submissions, writing the index, the final cleanup
 * and check, saving and reloading the state, the error handler's save and
 * the cross-check against the website's registrations.
 */
module Archive {
  import opened Wrappers
  import opened Atoms
  import opened Text
  import opened Sorting
  import opened Fields
  import opened Naming
  import opened Template
  import opened Ledger
  import opened Pipeline

  /** A form as the forms service describes it: its title, its id and its submission count as text. */
  datatype Form = Form(name: string, id: string, submissionCount: string)

  /** What `save_state` writes: the saved fields, the ledger as JSON gives it back. */
  datatype SavedState = SavedState(form: Form, program: string, shortnames: map<string, seq<string>>,
                                   userlines: Userlines, submissions: seq<SubmissionId>)

  /** The website's answer to the cross-check: the registered and the exempted students, when present. */
  datatype CheckResponse = CheckResponse(submitted: Option<map<string, string>>, bypass: Option<map<string, string>>)

  /** The state `save_state` writes for the given fields. */
  function Saved(form: Form, program: string, shortnames: map<string, seq<string>>,
                 userlines: Userlines, submissions: seq<SubmissionId>): (s: SavedState)
    ensures forall k :: k in s.userlines ==> k.AStr?
    ensures s.form == form && s.program == program
    ensures s.submissions == submissions && s.shortnames == shortnames
    ensures s.userlines == JsonKeys(userlines)
  {
    SavedState(form, program, shortnames, JsonKeys(userlines), submissions)
  }

  /** A state an update run can start from: contiguous versions, and the name fields known. */
  ghost predicate SavedValid(s: SavedState)
  {
    LedgerValid(s.userlines) && HasNameFields(s.shortnames)
  }

  /** Saving a ledger with contiguous versions, with the name fields known, gives a state an update run can start from. */
  lemma SavedKeepsValid(form: Form, program: string, shortnames: map<string, seq<string>>,
                        userlines: Userlines, submissions: seq<SubmissionId>)
    requires LedgerValid(userlines) && HasNameFields(shortnames)
    ensures SavedValid(Saved(form, program, shortnames, userlines, submissions))
  {
    JsonKeysKeepsLedgerValid(userlines);
  }

  /** Saving what was loaded writes the same state again. */
  lemma SavedOfLoaded(saved: SavedState)
    requires forall k :: k in saved.userlines ==> k.AStr?
    ensures Saved(saved.form, saved.program, saved.shortnames, saved.userlines, saved.submissions) == saved
  {
    JsonKeysOfTextKeys(saved.userlines);
  }

  /**
   * The forms offered for choosing: those of the "Medical" folder when it
   * exists, else those of every folder, walked in `folderOrder`.
   */
  function FormChoices(folders: map<string, seq<Form>>, folderOrder: seq<string>): (r: seq<Form>)
    requires Enumerates(folderOrder, folders.Keys)
    ensures "Medical" in folders ==> r == folders["Medical"]
    ensures "Medical" !in folders ==> forall f :: f in r <==> exists name :: name in folders && f in folders[name]
  {
    if "Medical" in folders then folders["Medical"]
    else
      forall f, name | name in folders && f in folders[name] ensures f in AllForms(folders, folderOrder) {
        var i :| 0 <= i < |folderOrder| && folderOrder[i] == name;
      }
      AllForms(folders, folderOrder)
  }

  /** Every folder's forms, folder after folder in `folderOrder`. */
  function AllForms(folders: map<string, seq<Form>>, folderOrder: seq<string>): (r: seq<Form>)
    requires forall i :: 0 <= i < |folderOrder| ==> folderOrder[i] in folders
    ensures forall f :: f in r <==> exists i :: 0 <= i < |folderOrder| && f in folders[folderOrder[i]]
  {
    if folderOrder == [] then []
    else
      var rest := AllForms(folders, folderOrder[1..]);
      assert forall i :: 0 < i < |folderOrder| ==> folderOrder[i] == folderOrder[1..][i - 1];
      folders[folderOrder[0]] + rest
  }

  /**
   * The forms are offered folder after folder: the forms of a split folder
   * order are those of its front followed by those of its back, so the
   * typed index counts through the folders in order.
   */
  lemma {:induction false} AllFormsAppend(folders: map<string, seq<Form>>, a: seq<string>, b: seq<string>)
    requires forall i :: 0 <= i < |a| ==> a[i] in folders
    requires forall i :: 0 <= i < |b| ==> b[i] in folders
    ensures AllForms(folders, a + b) == AllForms(folders, a) + AllForms(folders, b)
  {
    if a == [] {
      assert a + b == b;
    } else {
      assert (a + b)[0] == a[0] && (a + b)[1..] == a[1..] + b;
      AllFormsAppend(folders, a[1..], b);
      assert folders[a[0]] + (AllForms(folders, a[1..]) + AllForms(folders, b))
          == (folders[a[0]] + AllForms(folders, a[1..])) + AllForms(folders, b);
    }
  }

  /** The offering loop of `choose_form`: the "Medical" folder's forms, else each folder's forms appended in turn. */
  method OfferedForms(folders: map<string, seq<Form>>, folderOrder: seq<string>) returns (forms: seq<Form>)
    requires Enumerates(folderOrder, folders.Keys)
    ensures forms == FormChoices(folders, folderOrder)
  {
    forms := [];
    if "Medical" in folders {
      forms := forms + folders["Medical"];
      return;
    }
    var i := 0;
    while i < |folderOrder|
      invariant 0 <= i <= |folderOrder|
      invariant forms == AllForms(folders, folderOrder[..i])
    {
      assert folderOrder[..i + 1] == folderOrder[..i] + [folderOrder[i]];
      AllFormsAppend(folders, folderOrder[..i], [folderOrder[i]]);
      assert AllForms(folders, [folderOrder[i]]) == folders[folderOrder[i]] + [];
      forms := forms + folders[folderOrder[i]];
      i := i + 1;
    }
    assert folderOrder[..i] == folderOrder;
  }

  /** Python's `forms[i]`: negative indices count from the end; anything else out of range fails. */
  function PickForm(forms: seq<Form>, choice: int): (r: Option<Form>)
    ensures r.Some? <==> -|forms| <= choice < |forms|
    ensures 0 <= choice < |forms| ==> r == Some(forms[choice])
    ensures -|forms| <= choice < 0 ==> r == Some(forms[|forms| + choice])
  {
    if 0 <= choice < |forms| then Some(forms[choice])
    else if -|forms| <= choice < 0 then Some(forms[|forms| + choice])
    else None
  }

  /** The first lines of the index file. */
  function IndexHeader(program: string, stamp: string): string
  {
    program + "\n" + "MIT Educational Studies Program\n" + "esp@mit.edu  |  (617) 253-4882\n"
    + "Last Updated: " + stamp + "\n" + "\n"
  }

  /** Names written one per line. */
  function Lines(names: seq<string>): string
  {
    if names == [] then "" else Lines(names[..|names| - 1]) + names[|names| - 1] + "\n"
  }

  /** Writing the names of one more submitter appends exactly its lines. */
  lemma {:induction false} LinesAppend(a: seq<string>, b: seq<string>)
    ensures Lines(a + b) == Lines(a) + Lines(b)
    decreases |b|
  {
    if b == [] {
      assert a + b == a;
    } else {
      var b' := b[..|b| - 1];
      assert (a + b)[..|a + b| - 1] == a + b';
      LinesAppend(a, b');
    }
  }

  /** One turn of the version walk: the version found is dropped from what remains. */
  lemma WalkVersionsStep(files: map<Atom, string>, remaining: map<Atom, string>, style: KeyStyle, version: int)
    requires NumberKey(style, version) in files
    requires forall k :: k in remaining ==> k in files && remaining[k] == files[k]
    requires forall v :: v >= version ==> (NumberKey(style, v) in remaining <==> NumberKey(style, v) in files)
    ensures var k := NumberKey(style, version);
            var rest := remaining - {k};
            && k in remaining
            && Walk(remaining, style, version) == [files[k]] + Walk(rest, style, version + 1)
            && (forall k' :: k' in rest ==> k' in files && rest[k'] == files[k'])
            && (forall v :: v >= version + 1 ==> (NumberKey(style, v) in rest <==> NumberKey(style, v) in files))
            && |rest| < |remaining|
  {
    var k := NumberKey(style, version);
    assert k in remaining;
    var rest := remaining - {k};
    assert rest.Keys == remaining.Keys - {k};
    forall v | v >= version + 1
      ensures NumberKey(style, v) in rest <==> NumberKey(style, v) in files
    {
      if NumberKey(style, v) == k { NumberKeyInjective(style, v, version); }
    }
  }

  /** The walk over one submitter's versions, as `write_index` and `finalize` loop over them. */
  method WalkVersions(files: map<Atom, string>, style: KeyStyle) returns (names: seq<string>)
    ensures names == Walk(files, style, 1)
  {
    names := [];
    var version := 1;
    ghost var remaining := files;
    while NumberKey(style, version) in files
      invariant Walk(files, style, 1) == names + Walk(remaining, style, version)
      invariant forall k :: k in remaining ==> k in files && remaining[k] == files[k]
      invariant forall v :: v >= version ==> (NumberKey(style, v) in remaining <==> NumberKey(style, v) in files)
      decreases |remaining|
    {
      var k := NumberKey(style, version);
      ghost var rest := remaining - {k};
      WalkVersionsStep(files, remaining, style, version);
      names := names + [files[k]];
      remaining := rest;
      version := version + 1;
    }
    assert NumberKey(style, version) !in remaining;
  }

  /** The index lines of the walked names appended to the text written so far. */
  method WriteLines(text: string, names: seq<string>) returns (r: string)
    ensures r == text + Lines(names)
  {
    r := text;
    var j := 0;
    while j < |names|
      invariant 0 <= j <= |names|
      invariant r == text + Lines(names[..j])
    {
      assert names[..j + 1][..j] == names[..j];
      r := r + names[j] + "\n";
      j := j + 1;
    }
    assert names[..j] == names;
  }

  /** One more key of the index: its walked versions' lines follow the lines written so far. */
  lemma IndexLinesStep(userlines: Userlines, keys: seq<Atom>, i: nat, text: string)
    requires forall i :: 0 <= i < |keys| ==> keys[i] in userlines
    requires i < |keys|
    ensures text + Lines(Names(userlines, keys[..i + 1], TextKeys))
            == (text + Lines(Names(userlines, keys[..i], TextKeys))) + Lines(Walk(userlines[keys[i]].files, TextKeys, 1))
  {
    var front := Names(userlines, keys[..i], TextKeys);
    var walked := Walk(userlines[keys[i]].files, TextKeys, 1);
    assert keys[..i + 1] == keys[..i] + [keys[i]];
    NamesSnoc(userlines, keys[..i], keys[i], TextKeys);
    LinesAppend(front, walked);
  }

  /** The body of `write_index`: each key's versions walked from 1 and written one line each. */
  method IndexLines(userlines: Userlines, keys: seq<Atom>, text: string) returns (r: string)
    requires forall i :: 0 <= i < |keys| ==> keys[i] in userlines
    ensures r == text + Lines(Names(userlines, keys, TextKeys))
  {
    r := text;
    var i := 0;
    while i < |keys|
      invariant 0 <= i <= |keys|
      invariant r == text + Lines(Names(userlines, keys[..i], TextKeys))
    {
      var walked := WalkVersions(userlines[keys[i]].files, TextKeys);
      IndexLinesStep(userlines, keys, i, text);
      r := WriteLines(r, walked);
      i := i + 1;
    }
    assert keys[..i] == keys;
  }

  /** `finalize`'s cleanup: the auxiliary files deleted, and the listing that remains. */
  method RemoveAuxiliary(listing: seq<string>) returns (deleted: seq<string>, contents: seq<string>)
    ensures deleted == Auxiliary(listing) && contents == Cleaned(listing)
  {
    deleted := [];
    contents := [];
    var i := 0;
    while i < |listing|
      invariant 0 <= i <= |listing|
      invariant deleted == Auxiliary(listing[..i]) && contents == Cleaned(listing[..i])
    {
      CleanedSnoc(listing, i);
      AuxiliarySnoc(listing, i);
      if IsAuxiliary(listing[i]) {
        deleted := deleted + [listing[i]];
      } else {
        contents := contents + [listing[i]];
      }
      i := i + 1;
    }
    assert listing[..i] == listing;
  }

  /** The inner loop of `finalize`'s check: the first walked name whose `.pdf` is absent. */
  method FirstMissingPdf(names: seq<string>, contents: seq<string>) returns (missing: Option<string>)
    ensures missing == MissingPdf(names, contents)
  {
    var j := 0;
    while j < |names|
      invariant 0 <= j <= |names|
      invariant forall p :: 0 <= p < j ==> names[p] + ".pdf" in contents
    {
      if names[j] + ".pdf" !in contents {
        MissingPdfAt(names, contents, j);
        return Some(names[j] + ".pdf");
      }
      j := j + 1;
    }
    missing := None;
  }

  /** The value loop of `process_submission`: every name resolved in order, each value also escaped. */
  method ResolveValues(data: seq<Item>, shortnames: map<string, seq<string>>, names: seq<string>,
                       escape: string -> string)
    returns (resolved: Result<map<string, string>, string>, escaped: map<string, string>)
    requires forall i :: 0 <= i < |names| ==> names[i] in shortnames
    ensures resolved == ResolveAll(data, shortnames, names)
    ensures resolved.Ok? ==> escaped == Escaped(resolved.value, escape)
  {
    var values: map<string, string> := map[];
    escaped := map[];
    var i := 0;
    while i < |names|
      invariant 0 <= i <= |names|
      invariant ResolveAll(data, shortnames, names[..i]) == Ok(values)
      invariant escaped == Escaped(values, escape)
    {
      ResolveAllSnoc(data, shortnames, names, i);
      var v := SearchDetailsList(data, shortnames[names[i]]);
      if v.None? {
        ResolveAllStopsAtError(data, shortnames, names, i + 1);
        return Err(names[i]), escaped;
      }
      EscapedUpdate(values, names[i], v.value, escape);
      values := values[names[i] := v.value];
      escaped := escaped[names[i] := escape(v.value)];
      i := i + 1;
    }
    assert names[..i] == names;
    resolved := Ok(values);
  }

  /**
   * The rest of `process_submission` once every value is resolved: the ESP
   * id parsed, the submitter's version taken and recorded under int keys,
   * the template interpolated and the id added to the processed list.
   */
  method Render(setup: Setup, env: Env, userlines: Userlines, submissions: seq<SubmissionId>,
                id: SubmissionId, timestamp: string, values: map<string, string>, escaped: map<string, string>)
    returns (ul: Userlines, subs: seq<SubmissionId>, result: Result<Artifact, Error>)
    requires forall i :: 0 <= i < |setup.valueOrder| ==>
               setup.valueOrder[i] in values || setup.valueOrder[i] in {VersionName, DateName}
    requires escaped == Escaped(values, env.escape)
    ensures var s := Resolved(setup, env, IntKeys, userlines, submissions, id, timestamp, values);
            ul == s.userlines && subs == s.submissions && result == s.result
  {
    ul, subs := userlines, submissions;
    if "esp_id_number" !in values {
      return ul, subs, Err(MissingValue("esp_id_number"));
    }
    var espId := ParseInt(values["esp_id_number"]);
    if espId.None? {
      return ul, subs, Err(NotAnInteger(values["esp_id_number"]));
    }
    var key := NumberKey(IntKeys, espId.value);
    var version: int;
    if key !in ul {
      ul := ul[key := Entry(1, map[])];
      version := 1;
    } else {
      version := ul[key].next;
    }
    ul := ul[key := ul[key].(next := version + 1)];
    assert version == VersionFor(userlines, key);
    assert ul == Bump(userlines, key);
    if "full_legal_name" !in values {
      return ul, subs, Err(MissingValue("full_legal_name"));
    }
    if "esp_username" !in values {
      return ul, subs, Err(MissingValue("esp_username"));
    }
    var filename := FileName(values["esp_id_number"], values["full_legal_name"], values["esp_username"], version);
    ul := ul[key := ul[key].(files := ul[key].files[NumberKey(TextKeys, version) := filename])];
    assert ul == Record(Bump(userlines, key), key, version, filename);
    var date := env.formatDate(timestamp);
    if date.None? {
      return ul, subs, Err(BadTimestamp(timestamp));
    }
    var tex := Interpolate(setup.template, escaped[VersionName := IntToStr(version)][DateName := date.value],
                           setup.valueOrder);
    subs := subs + [id];
    result := Ok(Artifact(filename, tex));
  }

  /** The page loop of `list_submissions`: pages 1 .. `pages` fetched in order, stopping at the first failure. */
  method FetchPages(fetchPage: int -> Option<seq<SubmissionId>>, pages: nat)
    returns (ids: seq<SubmissionId>, requested: seq<int>, err: Option<Error>)
    ensures var listed := Listed(fetchPage, pages);
            && (err.None? <==> listed.Ok?)
            && (listed.Ok? ==> ids == listed.value)
            && (listed.Err? ==> err == Some(listed.error))
    ensures forall i :: 0 <= i < |requested| ==> requested[i] == i + 1
    ensures err.None? ==> |requested| == pages
  {
    ids := [];
    requested := [];
    var n := 1;
    while n <= pages
      invariant 1 <= n <= pages + 1
      invariant Listed(fetchPage, n - 1) == Ok(ids)
      invariant |requested| == n - 1 && forall i :: 0 <= i < |requested| ==> requested[i] == i + 1
    {
      var page := fetchPage(n);
      requested := requested + [n];
      if page.None? {
        assert Listed(fetchPage, n) == Err(HttpError(n));
        ListedStopsAtError(fetchPage, n, pages);
        return ids, requested, Some(HttpError(n));
      }
      assert Listed(fetchPage, n) == Ok(ids + page.value);
      ids := ids + page.value;
      n := n + 1;
    }
    err := None;
  }

  /** The body of `process_submission` on the state it reads and writes. */
  method ProcessDetails(setup: Setup, env: Env, userlines: Userlines, submissions: seq<SubmissionId>,
                        id: SubmissionId, details: Details)
    returns (ul: Userlines, subs: seq<SubmissionId>, result: Result<Artifact, Error>)
    requires SetupValid(setup)
    ensures var s := Process(setup, env, IntKeys, userlines, submissions, id, details);
            ul == s.userlines && subs == s.submissions && result == s.result
  {
    var resolved, escaped := ResolveValues(details.data, setup.shortnames, setup.names, env.escape);
    if resolved.Err? {
      return userlines, submissions, Err(FieldNotFound(resolved.error));
    }
    ul, subs, result := Render(setup, env, userlines, submissions, id, details.timestamp, resolved.value, escaped);
  }

  /** The loop of `load_fields`: field ids gathered under their names, in field order. */
  method BuildShortNames(fields: seq<Field>) returns (shortnames: map<string, seq<string>>)
    ensures shortnames == ShortNames(fields)
  {
    shortnames := map[];
    var i := 0;
    while i < |fields|
      invariant 0 <= i <= |fields|
      invariant shortnames == ShortNames(fields[..i])
    {
      var f := fields[i];
      ghost var prefix := fields[..i + 1];
      assert prefix[..|prefix| - 1] == fields[..i];
      assert prefix[|prefix| - 1] == f;
      assert [] + [f.id] == [f.id];
      if f.name != "" {
        if f.name in shortnames {
          shortnames := shortnames[f.name := shortnames[f.name] + [f.id]];
        } else {
          shortnames := shortnames[f.name := [f.id]];
        }
      }
      assert shortnames == ShortNames(prefix);
      i := i + 1;
    }
    assert fields[..i] == fields;
  }

  /** The required-field check of `load_fields`: the first required name the form lacks is reported. */
  method CheckRequired(shortnames: map<string, seq<string>>) returns (err: Option<Error>)
    ensures var missing := FirstMissing(RequiredFields, shortnames.Keys);
            err == if missing.None? then None else Some(MissingRequiredField(missing.value))
  {
    var j := 0;
    while j < |RequiredFields|
      invariant 0 <= j <= |RequiredFields|
      invariant forall m :: 0 <= m < j ==> RequiredFields[m] in shortnames
    {
      if RequiredFields[j] !in shortnames {
        var missing := FirstMissing(RequiredFields, shortnames.Keys);
        ghost var m :| 0 <= m < |RequiredFields| && RequiredFields[m] == missing.value
                      && missing.value !in shortnames.Keys
                      && forall p :: 0 <= p < m ==> RequiredFields[p] in shortnames.Keys;
        assert m == j;
        return Some(MissingRequiredField(RequiredFields[j]));
      }
      j := j + 1;
    }
    err := None;
  }

  /** One more line of the ledger with every PDF present: still no miss. */
  lemma CheckPdfsStep(userlines: Userlines, order: seq<Atom>, k: nat, contents: seq<string>)
    requires forall i :: 0 <= i < |order| ==> order[i] in userlines
    requires k < |order|
    requires MissingPdf(Names(userlines, order[..k], IntKeys), contents).None?
    requires MissingPdf(Walk(userlines[order[k]].files, IntKeys, 1), contents).None?
    ensures MissingPdf(Names(userlines, order[..k + 1], IntKeys), contents).None?
  {
    var walked := Walk(userlines[order[k]].files, IntKeys, 1);
    assert order[..k + 1] == order[..k] + [order[k]];
    NamesSnoc(userlines, order[..k], order[k], IntKeys);
    MissingPdfAppend(Names(userlines, order[..k], IntKeys), walked, contents);
  }

  /** One more line of the ledger with a PDF absent: that miss is the first miss overall. */
  lemma CheckPdfsHit(userlines: Userlines, order: seq<Atom>, k: nat, contents: seq<string>)
    requires forall i :: 0 <= i < |order| ==> order[i] in userlines
    requires k < |order|
    requires MissingPdf(Names(userlines, order[..k], IntKeys), contents).None?
    requires MissingPdf(Walk(userlines[order[k]].files, IntKeys, 1), contents).Some?
    ensures MissingPdf(Names(userlines, order, IntKeys), contents)
            == MissingPdf(Walk(userlines[order[k]].files, IntKeys, 1), contents)
  {
    var walked := Walk(userlines[order[k]].files, IntKeys, 1);
    var front := Names(userlines, order[..k], IntKeys);
    assert order[..k + 1] == order[..k] + [order[k]];
    NamesSnoc(userlines, order[..k], order[k], IntKeys);
    MissingPdfAppend(front, walked, contents);
    NamesAppend(userlines, order[..k + 1], order[k + 1..], IntKeys);
    assert order[..k + 1] + order[k + 1..] == order;
    MissingPdfAfterHit(front + walked, Names(userlines, order[k + 1..], IntKeys), contents);
  }

  /** The final loop of `finalize`: every recorded version's PDF must be in the folder. */
  method CheckPdfs(userlines: Userlines, order: seq<Atom>, contents: seq<string>) returns (err: Option<Error>)
    requires forall i :: 0 <= i < |order| ==> order[i] in userlines
    ensures err == (var m := MissingPdf(Names(userlines, order, IntKeys), contents);
                    if m.Some? then Some(MissingFile(m.value)) else None)
  {
    var k := 0;
    while k < |order|
      invariant 0 <= k <= |order|
      invariant MissingPdf(Names(userlines, order[..k], IntKeys), contents).None?
    {
      var walked := WalkVersions(userlines[order[k]].files, IntKeys);
      var missing := FirstMissingPdf(walked, contents);
      if missing.Some? {
        CheckPdfsHit(userlines, order, k, contents);
        return Some(MissingFile(missing.value));
      }
      CheckPdfsStep(userlines, order, k, contents);
      k := k + 1;
    }
    assert order[..k] == order;
    err := None;
  }

  /**
   * `check`'s two lists: the names of the registered students with no
   * ledger entry, and those of the exempted students, each sorted.
   */
  method CheckLists(submitted: map<string, string>, order: seq<string>, bypass: map<string, string>,
                    bypassOrder: seq<string>, userlines: Userlines)
    returns (missing: seq<Atom>, bypassed: seq<Atom>)
    requires Enumerates(order, submitted.Keys)
    requires Enumerates(bypassOrder, bypass.Keys)
    ensures Sorted(missing) && multiset(missing) == multiset(Missing(submitted, order, userlines))
    ensures forall x :: multiset(missing)[x]
              == |set k | k in submitted && AStr(k) !in userlines && AStr(submitted[k]) == x|
    ensures Sorted(bypassed) && multiset(bypassed) == multiset(Bypassed(bypass, bypassOrder))
    ensures forall x :: multiset(bypassed)[x] == |set k | k in bypass && AStr(bypass[k]) == x|
  {
    missing := Sort(Missing(submitted, order, userlines));
    bypassed := Sort(Bypassed(bypass, bypassOrder));
    forall x ensures multiset(missing)[x]
                       == |set k | k in submitted && AStr(k) !in userlines && AStr(submitted[k]) == x| {
      MissingCountsOfKeys(submitted, order, userlines, x);
    }
    forall x ensures multiset(bypassed)[x] == |set k | k in bypass && AStr(bypass[k]) == x| {
      BypassedCounts(bypass, bypassOrder, x);
    }
  }

  /** The configuration of a run: what is saved between runs, and the template. */
  class Config {
    var form: Form
    var program: string
    var template: string
    var shortnames: map<string, seq<string>>
    var userlines: Userlines
    var submissions: seq<SubmissionId>

    /** `initialize`: an empty configuration holding the template text. */
    constructor (template: string)
      ensures this.template == template
      ensures form == Form("", "", "") && program == "" && shortnames == map[]
      ensures userlines == map[] && submissions == []
      ensures Valid()
    {
      this.template := template;
      form := Form("", "", "");
      program := "";
      shortnames := map[];
      userlines := map[];
      submissions := [];
    }

    /** The ledger's versions are contiguous from 1 for every submitter. */
    ghost predicate Valid()
      reads this
    {
      LedgerValid(userlines)
    }

    /** The state `save_state` would write now. */
    function Snapshot(): SavedState
      reads this
    {
      Saved(form, program, shortnames, userlines, submissions)
    }

    /**
     * `choose_form`: the form at the typed index among the offered forms,
     * and the program name derived from its title.
     */
    method ChooseForm(folders: map<string, seq<Form>>, folderOrder: seq<string>, choiceText: string)
      returns (err: Option<Error>)
      requires Enumerates(folderOrder, folders.Keys)
      modifies this
      ensures var forms := FormChoices(folders, folderOrder);
              var choice := ParseInt(choiceText);
              if choice.None? then err == Some(NotAnInteger(choiceText)) && unchanged(this)
              else if PickForm(forms, choice.value).None? then err == Some(NoSuchForm(choice.value)) && unchanged(this)
              else && err.None?
                   && form == PickForm(forms, choice.value).value
                   && program == ProgramName(form.name)
                   && template == old(template) && shortnames == old(shortnames)
                   && userlines == old(userlines) && submissions == old(submissions)
    {
      var forms := OfferedForms(folders, folderOrder);
      var choice := ParseInt(choiceText);
      if choice.None? {
        return Some(NotAnInteger(choiceText));
      }
      var picked := PickForm(forms, choice.value);
      if picked.None? {
        return Some(NoSuchForm(choice.value));
      }
      form := picked.value;
      program := ProgramName(form.name);
      err := None;
    }

    /**
     * `load_fields`: the field map rebuilt from the form's field list, then
     * the first required name it lacks reported.
     */
    method LoadFields(fields: seq<Field>) returns (err: Option<Error>)
      modifies this
      ensures shortnames == ShortNames(fields)
      ensures var missing := FirstMissing(RequiredFields, shortnames.Keys);
              err == if missing.None? then None else Some(MissingRequiredField(missing.value))
      ensures form == old(form) && program == old(program) && template == old(template)
      ensures userlines == old(userlines) && submissions == old(submissions)
    {
      shortnames := BuildShortNames(fields);
      err := CheckRequired(shortnames);
    }

    /** The processing setup the current field map and template give, with the maps' iteration orders. */
    function SetupOf(names: seq<string>, valueOrder: seq<string>): Setup
      reads this
    {
      Setup(shortnames, names, valueOrder, template)
    }

    /**
     * `process_submission`: the values of every name resolved and escaped,
     * the ESP id parsed, the submitter's version taken and recorded, the
     * template interpolated and the id added to the processed list.
     */
    method ProcessSubmission(id: SubmissionId, details: Details, names: seq<string>,
                             valueOrder: seq<string>, env: Env) returns (result: Result<Artifact, Error>)
      requires SetupValid(SetupOf(names, valueOrder))
      modifies this
      ensures var s := Process(old(SetupOf(names, valueOrder)), env, IntKeys, old(userlines), old(submissions), id, details);
              userlines == s.userlines && submissions == s.submissions && result == s.result
      ensures form == old(form) && program == old(program) && template == old(template)
      ensures shortnames == old(shortnames)
      ensures old(Valid()) && HasNameFields(shortnames) ==> Valid()
    {
      var setup := SetupOf(names, valueOrder);
      ProcessKeepsLedgerValid(setup, env, IntKeys, userlines, submissions, id, details);
      var ul, subs;
      ul, subs, result := ProcessDetails(setup, env, userlines, submissions, id, details);
      userlines, submissions := ul, subs;
    }

    /**
     * The download loop of `full_download` (every id) and of
     * `incremental_download` (`skipProcessed`: ids not yet processed); the
     * first failing submission ends it.
     */
    method Download(ids: seq<SubmissionId>, fetch: SubmissionId -> Details, names: seq<string>,
                    valueOrder: seq<string>, env: Env, skipProcessed: bool)
      returns (artifacts: seq<Artifact>, err: Option<Error>)
      requires SetupValid(SetupOf(names, valueOrder))
      modifies this
      ensures var r := Pipeline.Download(old(SetupOf(names, valueOrder)), env, fetch, old(userlines), old(submissions),
                                         ids, skipProcessed);
              userlines == r.userlines && submissions == r.submissions && artifacts == r.artifacts && err == r.error
      ensures form == old(form) && program == old(program) && template == old(template)
      ensures shortnames == old(shortnames)
      ensures old(Valid()) && HasNameFields(shortnames) ==> Valid()
    {
      ghost var setup := SetupOf(names, valueOrder);
      ghost var step := Processing(setup, env, fetch);
      ghost var whole := Loop(step, userlines, submissions, ids, skipProcessed);
      artifacts := [];
      var i := 0;
      while i < |ids|
        invariant 0 <= i <= |ids|
        invariant SetupOf(names, valueOrder) == setup
        invariant form == old(form) && program == old(program)
        invariant old(Valid()) && HasNameFields(shortnames) ==> Valid()
        invariant var rest := Loop(step, userlines, submissions, ids[i..], skipProcessed);
                  whole == rest.(artifacts := artifacts + rest.artifacts)
      {
        ghost var here := ids[i..];
        assert here[0] == ids[i] && here[1..] == ids[i + 1..];
        LoopAdvances(step, userlines, submissions, here, skipProcessed, artifacts, whole);
        if skipProcessed && ids[i] in submissions {
          i := i + 1;
          continue;
        }
        ProcessingApplies(setup, env, fetch, userlines, submissions, ids[i]);
        var result := ProcessSubmission(ids[i], fetch(ids[i]), names, valueOrder, env);
        if result.Err? {
          err := Some(result.error);
          return;
        }
        artifacts := artifacts + [result.value];
        i := i + 1;
      }
      err := None;
      assert artifacts + [] == artifacts;
    }

    /**
     * `list_submissions`: the form's submission count parsed, pages 1 ..
     * ceil(count / 100) requested in ascending order and their ids
     * concatenated; the first page that fails ends the listing.
     */
    method ListSubmissions(fetchPage: int -> Option<seq<SubmissionId>>)
      returns (ids: seq<SubmissionId>, requested: seq<int>, err: Option<Error>)
      ensures var listed := ListSubmissionsResult(form.submissionCount, fetchPage);
              && (err.None? <==> listed.Ok?)
              && (listed.Ok? ==> ids == listed.value)
              && (listed.Err? ==> err == Some(listed.error))
      ensures forall i :: 0 <= i < |requested| ==> requested[i] == i + 1
      ensures ParseInt(form.submissionCount).Some? && err.None? ==>
                |requested| == PageCount(ParseInt(form.submissionCount).value)
    {
      ids := [];
      requested := [];
      var count := ParseInt(form.submissionCount);
      if count.None? {
        return [], [], Some(NotAnInteger(form.submissionCount));
      }
      ids, requested, err := FetchPages(fetchPage, PageCount(count.value));
    }

    /**
     * `write_index`: the header, then every submitter in ascending key order
     * with its versions walked from 1; `stamp` is the local time text.
     */
    method WriteIndex(stamp: string) returns (keys: seq<Atom>, text: string)
      ensures StrictlySorted(keys) && forall k :: k in keys <==> k in userlines
      ensures text == IndexHeader(program, stamp) + Lines(Names(userlines, keys, TextKeys))
    {
      keys := SortedKeys(userlines.Keys);
      text := IndexLines(userlines, keys, IndexHeader(program, stamp));
    }

    /**
     * `finalize`: the auxiliary files of the directory listing deleted, then
     * every walked version of every submitter, in `order`, checked for its
     * `.pdf` in what remains. The versions are probed as int keys.
     */
    method Finalize(listing: seq<string>, order: seq<Atom>) returns (deleted: seq<string>, err: Option<Error>)
      requires forall i :: 0 <= i < |order| ==> order[i] in userlines
      ensures deleted == Auxiliary(listing)
      ensures err == FinalCheck(userlines, order, listing, IntKeys)
    {
      var contents;
      deleted, contents := RemoveAuxiliary(listing);
      err := CheckPdfs(userlines, order, contents);
    }

    /** `save_state`: the saved fields, the ledger written as JSON writes it. */
    method SaveState() returns (saved: SavedState)
      ensures saved.form == form && saved.program == program && saved.shortnames == shortnames
      ensures saved.submissions == submissions && saved.userlines == JsonKeys(userlines)
    {
      saved := Saved(form, program, shortnames, userlines, submissions);
    }

    /** `choose_existing_folder`: every saved field set from the saved state; the template stays. */
    method LoadState(saved: SavedState)
      modifies this
      ensures form == saved.form && program == saved.program && shortnames == saved.shortnames
      ensures userlines == saved.userlines && submissions == saved.submissions
      ensures template == old(template)
      ensures Valid() <==> LedgerValid(saved.userlines)
    {
      form := saved.form;
      program := saved.program;
      shortnames := saved.shortnames;
      userlines := saved.userlines;
      submissions := saved.submissions;
    }

    /**
     * `exception_handler`: the state is saved when saving is asked for and
     * at least one submission has been processed.
     */
    method HandleError(saveRequested: bool) returns (saved: Option<SavedState>)
      ensures saved.Some? <==> SavesOnError(submissions, saveRequested)
      ensures saved.Some? ==> saved.value == Snapshot()
    {
      if SavesOnError(submissions, saveRequested) {
        var s := SaveState();
        return Some(s);
      }
      saved := None;
    }

    /**
     * `check`: the website's answer must hold both maps; the registered
     * students with no ledger entry, and the exempted students, each sorted
     * by name. `order` and `bypassOrder` are the maps' iteration orders;
     * each name appears once per student, whatever those orders are.
     */
    method Check(response: CheckResponse, order: seq<string>, bypassOrder: seq<string>)
      returns (missing: seq<Atom>, bypassed: seq<Atom>, err: Option<Error>)
      requires response.submitted.Some? ==> Enumerates(order, response.submitted.value.Keys)
      requires response.bypass.Some? ==> Enumerates(bypassOrder, response.bypass.value.Keys)
      ensures err.Some? <==> response.submitted.None? || response.bypass.None?
      ensures err.Some? ==> err == Some(InvalidResponse) && missing == [] && bypassed == []
      ensures err.None? ==> && Sorted(missing)
                            && multiset(missing) == multiset(Missing(response.submitted.value, order, userlines))
                            && (forall x :: multiset(missing)[x]
                                  == |set k | k in response.submitted.value && AStr(k) !in userlines
                                              && AStr(response.submitted.value[k]) == x|)
                            && Sorted(bypassed)
                            && multiset(bypassed) == multiset(Bypassed(response.bypass.value, bypassOrder))
                            && (forall x :: multiset(bypassed)[x]
                                  == |set k | k in response.bypass.value && AStr(response.bypass.value[k]) == x|)
    {
      if response.submitted.None? || response.bypass.None? {
        return [], [], Some(InvalidResponse);
      }
      missing, bypassed := CheckLists(response.submitted.value, order, response.bypass.value, bypassOrder, userlines);
      err := None;
    }

    /**
     * `full_download`: the form chosen, its fields loaded, every listed
     * submission processed, the index written, the state saved and the
     * directory checked; any error goes to the handler, which saves.
     */
    method FullDownload(folders: map<string, seq<Form>>, folderOrder: seq<string>, choiceText: string,
                        fields: seq<Field>, names: seq<string>, valueOrder: seq<string>,
                        fetchPage: int -> Option<seq<SubmissionId>>, fetch: SubmissionId -> Details,
                        env: Env, stamp: string, listing: seq<string>)
      returns (ids: seq<SubmissionId>, keys: seq<Atom>, index: string, saved: Option<SavedState>, err: Option<Error>)
      requires Enumerates(folderOrder, folders.Keys)
      requires SetupValid(Setup(ShortNames(fields), names, valueOrder, template))
      requires Valid()
      modifies this
      ensures Valid()
      ensures err.None? ==>
                && ParseInt(choiceText).Some?
                && PickForm(FormChoices(folders, folderOrder), ParseInt(choiceText).value) == Some(form)
                && program == ProgramName(form.name) && shortnames == ShortNames(fields)
                && ListSubmissionsResult(form.submissionCount, fetchPage) == Ok(ids)
                && (var r := Pipeline.Download(Setup(ShortNames(fields), names, valueOrder, old(template)), env, fetch,
                                               old(userlines), old(submissions), ids, false);
                    r.error.None? && userlines == r.userlines && submissions == r.submissions)
                && submissions == old(submissions) + ids
                && StrictlySorted(keys) && (forall k :: k in keys <==> k in userlines)
                && index == IndexHeader(program, stamp) + Lines(Names(userlines, keys, TextKeys))
                && saved == Some(Snapshot()) && SavedValid(saved.value)
      ensures err.Some? ==> (saved.Some? <==> SavesOnError(submissions, true))
      ensures saved.Some? ==> saved == Some(Snapshot())
      ensures saved.Some? && old(submissions) == [] ==> SavedValid(saved.value)
    {
      ids, keys, index := [], [], "";
      ghost var named := false;
      err := ChooseForm(folders, folderOrder, choiceText);
      if err.None? {
        err := LoadFields(fields);
        if err.None? {
          RequiredHasNameFields(shortnames);
          named := true;
        }
      }
      if err.None? {
        var requested;
        ids, requested, err := ListSubmissions(fetchPage);
      }
      if err.None? {
        ghost var before, ledger := submissions, userlines;
        ghost var setup := SetupOf(names, valueOrder);
        var artifacts;
        artifacts, err := Download(ids, fetch, names, valueOrder, env, false);
        FullProcessesAllIds(Processing(setup, env, fetch), ledger, before, ids);
      }
      assert !named ==> submissions == old(submissions);
      keys, index, saved, err := Finish(stamp, listing, err);
      if named {
        SavedKeepsValid(form, program, shortnames, userlines, submissions);
      }
    }

    /**
     * `incremental_download`: the saved state loaded, the listed submissions
     * not yet processed processed, then as in `full_download`.
     */
    method IncrementalDownload(state: SavedState, names: seq<string>, valueOrder: seq<string>,
                               fetchPage: int -> Option<seq<SubmissionId>>, fetch: SubmissionId -> Details,
                               env: Env, stamp: string, listing: seq<string>)
      returns (ids: seq<SubmissionId>, keys: seq<Atom>, index: string, saved: Option<SavedState>, err: Option<Error>)
      requires SetupValid(Setup(state.shortnames, names, valueOrder, template))
      requires SavedValid(state)
      modifies this
      ensures Valid()
      ensures form == state.form && program == state.program && shortnames == state.shortnames
      ensures err.None? ==>
                && ListSubmissionsResult(state.form.submissionCount, fetchPage) == Ok(ids)
                && (var r := Pipeline.Download(Setup(state.shortnames, names, valueOrder, old(template)), env, fetch,
                                               state.userlines, state.submissions, ids, true);
                    r.error.None? && userlines == r.userlines && submissions == r.submissions)
                && submissions == state.submissions + Fresh(ids, state.submissions)
                && StrictlySorted(keys) && (forall k :: k in keys <==> k in userlines)
                && index == IndexHeader(program, stamp) + Lines(Names(userlines, keys, TextKeys))
                && saved == Some(Snapshot())
      ensures err.Some? ==> (saved.Some? <==> SavesOnError(submissions, true))
      ensures saved.Some? ==> saved == Some(Snapshot()) && SavedValid(saved.value)
    {
      LoadState(state);
      var requested;
      ids, requested, err := ListSubmissions(fetchPage);
      if err.None? {
        ghost var setup := SetupOf(names, valueOrder);
        var artifacts;
        artifacts, err := Download(ids, fetch, names, valueOrder, env, true);
        IncrementalProcessesFreshIds(Processing(setup, env, fetch), state.userlines, state.submissions, ids);
      }
      keys, index, saved, err := Finish(stamp, listing, err);
      SavedKeepsValid(form, program, shortnames, userlines, submissions);
    }

    /**
     * The common end of both downloads: after an earlier error the handler
     * alone; else the index written in ascending key order, the state saved
     * and the directory checked, whose failure goes to the handler too.
     * With contiguous versions the check never fails, so the run fails
     * exactly when an earlier step did.
     */
    method Finish(stamp: string, listing: seq<string>, earlier: Option<Error>)
      returns (keys: seq<Atom>, index: string, saved: Option<SavedState>, err: Option<Error>)
      requires Valid()
      ensures err.None? <==> earlier.None?
      ensures earlier.Some? ==> err == earlier && keys == [] && index == ""
      ensures earlier.None? ==> && StrictlySorted(keys) && (forall k :: k in keys <==> k in userlines)
                                && index == IndexHeader(program, stamp) + Lines(Names(userlines, keys, TextKeys))
                                && err == FinalCheck(userlines, keys, listing, IntKeys)
      ensures err.None? ==> saved == Some(Snapshot())
      ensures err.Some? ==> (saved.Some? <==> SavesOnError(submissions, true))
      ensures saved.Some? ==> saved == Some(Snapshot())
    {
      if earlier.Some? {
        saved := HandleError(true);
        return [], "", saved, earlier;
      }
      keys, index := WriteIndex(stamp);
      var state := SaveState();
      var deleted;
      deleted, err := Finalize(listing, keys);
      LedgerValidHasTextVersionKeys(userlines);
      FinalCheckAsWrittenIsVacuous(userlines, keys, listing);
      if err.Some? {
        saved := HandleError(true);
      } else {
        saved := Some(state);
      }
    }
  }

  /** A field map that passed the required-field check holds the name fields. */
  lemma RequiredHasNameFields(shortnames: map<string, seq<string>>)
    requires FirstMissing(RequiredFields, shortnames.Keys).None?
    ensures HasNameFields(shortnames)
  {
    assert RequiredFields[0] == "esp_username" && RequiredFields[2] == "full_legal_name";
  }
}
