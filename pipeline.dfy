/**
 * One submission turned into a ledger update and a rendered document
 * (`process_submission`), the download loop over all submissions with the
 * incremental run's skip rule, the paged submission listing, the final
 * check of the rendered documents, the save-on-error rule and the list of
 * students without a form.
 */
module Pipeline {
  import opened Wrappers
  import opened Atoms
  import opened Text
  import opened Sorting
  import opened Fields
  import opened Naming
  import opened Template
  import opened Ledger

  /** Why a run stops: each is an exception the program raises. */
  datatype Error =
    | MissingRequiredField(name: string)   // load_fields: a required name has no field
    | FieldNotFound(name: string)          // search_details_list: no id of the name in the submission
    | MissingValue(name: string)           // values[...] of a name the form does not define
    | NotAnInteger(text: string)           // int() of the ESP id or of the submission count
    | BadTimestamp(text: string)           // strptime of the submission's timestamp
    | HttpError(page: int)                 // a page of the submission listing could not be fetched
    | MissingFile(name: string)            // finalize: a rendered document is absent
    | InvalidResponse                      // check: the website's answer lacks "submitted" or "bypass"
    | NoSuchForm(choice: int)              // choose_form: the number typed is not a list index

  /** The functions whose code is not part of this model: LaTeX escaping and date formatting. */
  datatype Env = Env(escape: string -> string, formatDate: string -> Option<string>)

  /**
   * What the processing of a submission reads from the configuration: the
   * field map, the iteration order of its names, the iteration order of the
   * escaped-value map (its names and the two extra keys) and the template.
   */
  datatype Setup = Setup(shortnames: map<string, seq<string>>, names: seq<string>,
                         valueOrder: seq<string>, template: string)

  const VersionName: string := "version"
  const DateName: string := "formatted_date"

  /**
   * `names` enumerates the field map and `valueOrder` the escaped-value map:
   * every field name and the two extra keys, each once.
   */
  ghost predicate SetupValid(setup: Setup)
  {
    && (forall i :: 0 <= i < |setup.names| ==> setup.names[i] in setup.shortnames)
    && (forall n :: n in setup.shortnames ==> n in setup.names)
    && (forall i :: 0 <= i < |setup.valueOrder| ==>
          setup.valueOrder[i] in setup.shortnames || setup.valueOrder[i] in {VersionName, DateName})
    && (forall n :: n in setup.shortnames ==> n in setup.valueOrder)
    && VersionName in setup.valueOrder && DateName in setup.valueOrder
    && (forall i, j :: 0 <= i < j < |setup.valueOrder| ==> setup.valueOrder[i] != setup.valueOrder[j])
  }

  /**
   * The `values` map: every name resolved over its ids, in `names` order;
   * the first name that cannot be resolved stops the loop.
   */
  function ResolveAll(data: seq<Item>, shortnames: map<string, seq<string>>, names: seq<string>)
    : (r: Result<map<string, string>, string>)
    requires forall i :: 0 <= i < |names| ==> names[i] in shortnames
    ensures r.Ok? ==> (forall n :: n in r.value <==> n in names)
    ensures r.Ok? ==> forall n :: n in r.value ==> Resolve(data, shortnames[n]) == Some(r.value[n])
    decreases |names|
  {
    if names == [] then Ok(map[])
    else
      var front := names[..|names| - 1];
      var last := names[|names| - 1];
      var prev := ResolveAll(data, shortnames, front);
      if prev.Err? then prev
      else
        var v := Resolve(data, shortnames[last]);
        if v.None? then Err(last)
        else
          assert forall n :: n in names <==> n in front || n == last;
          Ok(prev.value[last := v.value])
  }

  /**
   * The values resolve exactly when every name does; otherwise the failure
   * is the first name, in order, that does not resolve.
   */
  lemma {:induction false} ResolveAllOutcome(data: seq<Item>, shortnames: map<string, seq<string>>, names: seq<string>)
    requires forall i :: 0 <= i < |names| ==> names[i] in shortnames
    ensures var r := ResolveAll(data, shortnames, names);
            && (r.Ok? <==> forall i :: 0 <= i < |names| ==> Resolve(data, shortnames[names[i]]).Some?)
            && (r.Err? ==> exists i :: 0 <= i < |names| && names[i] == r.error
                                     && Resolve(data, shortnames[names[i]]).None?
                                     && forall j :: 0 <= j < i ==> Resolve(data, shortnames[names[j]]).Some?)
    decreases |names|
  {
    if names != [] {
      var front := names[..|names| - 1];
      var last := names[|names| - 1];
      ResolveAllOutcome(data, shortnames, front);
      assert forall j :: 0 <= j < |front| ==> front[j] == names[j];
      var prev := ResolveAll(data, shortnames, front);
      if prev.Err? {
        var i :| 0 <= i < |front| && front[i] == prev.error
                 && Resolve(data, shortnames[front[i]]).None?
                 && forall j :: 0 <= j < i ==> Resolve(data, shortnames[front[j]]).Some?;
        assert names[i] == front[i];
      } else if Resolve(data, shortnames[last]).None? {
        assert names[|names| - 1] == last;
      }
    }
  }

  /** One more name: an earlier failure stands, else the name's value is added or the name is the failure. */
  lemma ResolveAllSnoc(data: seq<Item>, shortnames: map<string, seq<string>>, names: seq<string>, k: nat)
    requires forall i :: 0 <= i < |names| ==> names[i] in shortnames
    requires k < |names|
    ensures var prev := ResolveAll(data, shortnames, names[..k]);
            var v := Resolve(data, shortnames[names[k]]);
            ResolveAll(data, shortnames, names[..k + 1])
            == if prev.Err? then prev else if v.None? then Err(names[k]) else Ok(prev.value[names[k] := v.value])
  {
    assert names[..k + 1][..k] == names[..k];
  }

  /** Once a name cannot be resolved, the names after it are not looked at. */
  lemma {:induction false} ResolveAllStopsAtError(data: seq<Item>, shortnames: map<string, seq<string>>,
                                                   names: seq<string>, k: nat)
    requires forall i :: 0 <= i < |names| ==> names[i] in shortnames
    requires k <= |names| && ResolveAll(data, shortnames, names[..k]).Err?
    ensures ResolveAll(data, shortnames, names) == ResolveAll(data, shortnames, names[..k])
    decreases |names| - k
  {
    if k < |names| {
      var front := names[..|names| - 1];
      assert front[..k] == names[..k];
      ResolveAllStopsAtError(data, shortnames, front, k);
    } else {
      assert names[..k] == names;
    }
  }

  /** `values_escaped` before the two extra keys: each value passed through the escape function. */
  function Escaped(values: map<string, string>, escape: string -> string): (r: map<string, string>)
    ensures r.Keys == values.Keys
    ensures forall n :: n in r ==> r[n] == escape(values[n])
  {
    map n | n in values :: escape(values[n])
  }

  /** Escaping one more value extends the escaped map by that value's escape. */
  lemma EscapedUpdate(values: map<string, string>, name: string, value: string, escape: string -> string)
    ensures Escaped(values[name := value], escape) == Escaped(values, escape)[name := escape(value)]
  {
  }

  /** The rendered document of a submission: the base file name and the interpolated template. */
  datatype Artifact = Artifact(filename: string, tex: string)

  /** The ledger and the processed list after a submission, and what it produced. */
  datatype Step = Step(userlines: Userlines, submissions: seq<SubmissionId>, result: Result<Artifact, Error>)

  /**
   * `process_submission` of the submission `id` whose details are
   * `details`. The submitter's ledger entry is keyed by the ESP id as
   * `style` says: `IntKeys` is what the program does.
   */
  function Process(setup: Setup, env: Env, style: KeyStyle, userlines: Userlines,
                   submissions: seq<SubmissionId>, id: SubmissionId, details: Details): (s: Step)
    requires SetupValid(setup)
    ensures s.submissions == if s.result.Ok? then submissions + [id] else submissions
  {
    var resolved := ResolveAll(details.data, setup.shortnames, setup.names);
    if resolved.Err? then Step(userlines, submissions, Err(FieldNotFound(resolved.error)))
    else Resolved(setup, env, style, userlines, submissions, id, details.timestamp, resolved.value)
  }

  /**
   * The rest of `process_submission` once every value is resolved: the ESP
   * id parsed, the submitter's version taken and recorded, the date
   * formatted, the template interpolated and the id appended.
   */
  function Resolved(setup: Setup, env: Env, style: KeyStyle, userlines: Userlines, submissions: seq<SubmissionId>,
                    id: SubmissionId, timestamp: string, values: map<string, string>): (s: Step)
    requires forall i :: 0 <= i < |setup.valueOrder| ==>
               setup.valueOrder[i] in values || setup.valueOrder[i] in {VersionName, DateName}
    ensures s.submissions == if s.result.Ok? then submissions + [id] else submissions
  {
    if "esp_id_number" !in values then Step(userlines, submissions, Err(MissingValue("esp_id_number")))
    else
      var espText := values["esp_id_number"];
      var espId := ParseInt(espText);
      if espId.None? then Step(userlines, submissions, Err(NotAnInteger(espText)))
      else
        var key := NumberKey(style, espId.value);
        var version := VersionFor(userlines, key);
        var bumped := Bump(userlines, key);
        if "full_legal_name" !in values then Step(bumped, submissions, Err(MissingValue("full_legal_name")))
        else if "esp_username" !in values then Step(bumped, submissions, Err(MissingValue("esp_username")))
        else
          var filename := FileName(espText, values["full_legal_name"], values["esp_username"], version);
          var recorded := Record(bumped, key, version, filename);
          var date := env.formatDate(timestamp);
          if date.None? then Step(recorded, submissions, Err(BadTimestamp(timestamp)))
          else
            var escaped := Escaped(values, env.escape)[VersionName := IntToStr(version)][DateName := date.value];
            var tex := Interpolated(setup.template, escaped, setup.valueOrder);
            Step(recorded, submissions + [id], Ok(Artifact(filename, tex)))
  }

  /** The value the submission gives a logical name, when the form defines the name. */
  function ValueOf(setup: Setup, details: Details, name: string): Option<string>
  {
    if name in setup.shortnames then Resolve(details.data, setup.shortnames[name]) else None
  }

  /** Once every value resolves, processing is `Resolved` on those values, which are what `ValueOf` gives. */
  lemma ProcessResolves(setup: Setup, env: Env, style: KeyStyle, userlines: Userlines,
                        submissions: seq<SubmissionId>, id: SubmissionId, details: Details)
    requires SetupValid(setup)
    requires ResolveAll(details.data, setup.shortnames, setup.names).Ok?
    ensures var values := ResolveAll(details.data, setup.shortnames, setup.names).value;
            && Process(setup, env, style, userlines, submissions, id, details)
               == Resolved(setup, env, style, userlines, submissions, id, details.timestamp, values)
            && (forall n :: n in values ==> ValueOf(setup, details, n) == Some(values[n]))
            && (forall n :: n in values <==> n in setup.shortnames)
            && (forall i :: 0 <= i < |setup.valueOrder| ==>
                  setup.valueOrder[i] in values || setup.valueOrder[i] in {VersionName, DateName})
  {
  }

  /** `Resolved`'s success: the version taken and recorded, the file name, and the id appended. */
  lemma ResolvedSucceeds(setup: Setup, env: Env, style: KeyStyle, userlines: Userlines, submissions: seq<SubmissionId>,
                         id: SubmissionId, timestamp: string, values: map<string, string>)
    requires forall i :: 0 <= i < |setup.valueOrder| ==>
               setup.valueOrder[i] in values || setup.valueOrder[i] in {VersionName, DateName}
    requires Resolved(setup, env, style, userlines, submissions, id, timestamp, values).result.Ok?
    ensures var s := Resolved(setup, env, style, userlines, submissions, id, timestamp, values);
            && "esp_id_number" in values && "full_legal_name" in values && "esp_username" in values
            && ParseInt(values["esp_id_number"]).Some?
            && var key := NumberKey(style, ParseInt(values["esp_id_number"]).value);
               var version := VersionFor(userlines, key);
               && s.result.value.filename == FileName(values["esp_id_number"], values["full_legal_name"],
                                                      values["esp_username"], version)
               && s.userlines == Record(Bump(userlines, key), key, version, s.result.value.filename)
  {
  }

  /**
   * A successful submission takes the next version of its submitter (1 for a
   * new one), records under it the file name built from the submitter's id,
   * legal name and username with that version's suffix, and is appended to
   * the processed list.
   */
  lemma ProcessSucceeds(setup: Setup, env: Env, style: KeyStyle, userlines: Userlines,
                        submissions: seq<SubmissionId>, id: SubmissionId, details: Details)
    requires SetupValid(setup)
    requires Process(setup, env, style, userlines, submissions, id, details).result.Ok?
    ensures var s := Process(setup, env, style, userlines, submissions, id, details);
            var espText := ValueOf(setup, details, "esp_id_number");
            espText.Some? && ParseInt(espText.value).Some?
            && ValueOf(setup, details, "full_legal_name").Some? && ValueOf(setup, details, "esp_username").Some?
            && s.result.Ok?
            && var key := NumberKey(style, ParseInt(espText.value).value);
               var version := VersionFor(userlines, key);
               && s.result.value.filename == FileName(espText.value, ValueOf(setup, details, "full_legal_name").value,
                                                      ValueOf(setup, details, "esp_username").value, version)
               && EndsWith(s.result.value.filename, VersionSuffix(version))
               && s.userlines.Keys == userlines.Keys + {key}
               && s.userlines[key].next == version + 1
               && s.userlines[key].files.Keys == FilesOf(userlines, key).Keys + {NumberKey(TextKeys, version)}
               && s.userlines[key].files[NumberKey(TextKeys, version)] == s.result.value.filename
               && (forall f :: f in FilesOf(userlines, key) && f != NumberKey(TextKeys, version) ==>
                     s.userlines[key].files[f] == FilesOf(userlines, key)[f])
               && (forall k :: k in userlines && k != key ==> s.userlines[k] == userlines[k])
               && s.submissions == submissions + [id]
  {
    var resolved := ResolveAll(details.data, setup.shortnames, setup.names);
    assert resolved.Ok?;
    var values := resolved.value;
    ProcessResolves(setup, env, style, userlines, submissions, id, details);
    var s := Resolved(setup, env, style, userlines, submissions, id, details.timestamp, values);
    ResolvedSucceeds(setup, env, style, userlines, submissions, id, details.timestamp, values);
    var espText := values["esp_id_number"];
    var key := NumberKey(style, ParseInt(espText).value);
    BumpThenRecord(userlines, key, s.result.value.filename);
    FileNameKeepsVersion(espText, values["full_legal_name"], values["esp_username"], VersionFor(userlines, key));
  }

  /** `Resolved`'s failures: the id never appended; before the id is parsed the ledger unchanged; a bad timestamp after the record. */
  lemma ResolvedFails(setup: Setup, env: Env, style: KeyStyle, userlines: Userlines, submissions: seq<SubmissionId>,
                      id: SubmissionId, timestamp: string, values: map<string, string>)
    requires forall i :: 0 <= i < |setup.valueOrder| ==>
               setup.valueOrder[i] in values || setup.valueOrder[i] in {VersionName, DateName}
    requires Resolved(setup, env, style, userlines, submissions, id, timestamp, values).result.Err?
    ensures var s := Resolved(setup, env, style, userlines, submissions, id, timestamp, values);
            && s.submissions == submissions
            && !s.result.error.FieldNotFound?
            && ((s.result.error.NotAnInteger? || s.result.error == MissingValue("esp_id_number")) ==> s.userlines == userlines)
            && (s.result.error.BadTimestamp? ==>
                  exists key :: key in s.userlines && s.userlines[key].next == VersionFor(userlines, key) + 1
                                && NumberKey(TextKeys, VersionFor(userlines, key)) in s.userlines[key].files)
  {
    var s := Resolved(setup, env, style, userlines, submissions, id, timestamp, values);
    if s.result.error.BadTimestamp? {
      var key := NumberKey(style, ParseInt(values["esp_id_number"]).value);
      var name := FileName(values["esp_id_number"], values["full_legal_name"], values["esp_username"],
                           VersionFor(userlines, key));
      BumpThenRecord(userlines, key, name);
      assert key in s.userlines && s.userlines[key].next == VersionFor(userlines, key) + 1;
    }
  }

  /** `Resolved` keeps the ledger valid when the values hold the names the file name is made of. */
  lemma ResolvedKeepsLedgerValid(setup: Setup, env: Env, style: KeyStyle, userlines: Userlines,
                                 submissions: seq<SubmissionId>, id: SubmissionId, timestamp: string,
                                 values: map<string, string>)
    requires forall i :: 0 <= i < |setup.valueOrder| ==>
               setup.valueOrder[i] in values || setup.valueOrder[i] in {VersionName, DateName}
    requires "full_legal_name" in values && "esp_username" in values
    requires LedgerValid(userlines)
    ensures LedgerValid(Resolved(setup, env, style, userlines, submissions, id, timestamp, values).userlines)
  {
    if "esp_id_number" in values && ParseInt(values["esp_id_number"]).Some? {
      var key := NumberKey(style, ParseInt(values["esp_id_number"]).value);
      var version := VersionFor(userlines, key);
      var filename := FileName(values["esp_id_number"], values["full_legal_name"], values["esp_username"], version);
      BumpThenRecordKeepsValid(userlines, key, filename);
    }
  }

  /**
   * A failing submission is never added to the processed list. A failure
   * before the ESP id is parsed leaves the ledger as it was; a failure after
   * it leaves the submitter's `"next"` advanced, and a bad timestamp also
   * leaves the new version recorded.
   */
  lemma ProcessFails(setup: Setup, env: Env, style: KeyStyle, userlines: Userlines,
                     submissions: seq<SubmissionId>, id: SubmissionId, details: Details)
    requires SetupValid(setup)
    requires Process(setup, env, style, userlines, submissions, id, details).result.Err?
    ensures var s := Process(setup, env, style, userlines, submissions, id, details);
            && s.submissions == submissions
            && ((s.result.error.FieldNotFound? || s.result.error.NotAnInteger?
                 || s.result.error == MissingValue("esp_id_number")) ==> s.userlines == userlines)
            && (s.result.error.BadTimestamp? ==>
                  exists key :: key in s.userlines && s.userlines[key].next == VersionFor(userlines, key) + 1
                                && NumberKey(TextKeys, VersionFor(userlines, key)) in s.userlines[key].files)
  {
    var resolved := ResolveAll(details.data, setup.shortnames, setup.names);
    if resolved.Ok? {
      ProcessResolves(setup, env, style, userlines, submissions, id, details);
      ResolvedFails(setup, env, style, userlines, submissions, id, details.timestamp, resolved.value);
    }
  }

  /**
   * When the form defines the names the file name is made of (which
   * `load_fields` ensures), every outcome, failure included, keeps versions
   * contiguous from 1 with `"next"` one past the last.
   */
  lemma ProcessKeepsLedgerValid(setup: Setup, env: Env, style: KeyStyle, userlines: Userlines,
                                submissions: seq<SubmissionId>, id: SubmissionId, details: Details)
    requires SetupValid(setup)
    ensures HasNameFields(setup.shortnames) && LedgerValid(userlines) ==>
              LedgerValid(Process(setup, env, style, userlines, submissions, id, details).userlines)
  {
    var resolved := ResolveAll(details.data, setup.shortnames, setup.names);
    if resolved.Ok? && HasNameFields(setup.shortnames) && LedgerValid(userlines) {
      ProcessResolves(setup, env, style, userlines, submissions, id, details);
      ResolvedKeepsLedgerValid(setup, env, style, userlines, submissions, id, details.timestamp, resolved.value);
    }
  }

  /** The outcome of the download loop: the state it leaves, the documents made, and the error that stopped it. */
  datatype Run = Run(userlines: Userlines, submissions: seq<SubmissionId>, artifacts: seq<Artifact>, error: Option<Error>)

  /** One submission's processing as the loop sees it: ledger, processed list and id in, new state and result out. */
  type Processor = (Userlines, seq<SubmissionId>, SubmissionId) -> Step

  /** A processor that adds the id to the processed list exactly when it succeeds, and otherwise leaves the list alone. */
  ghost predicate AppendsOnSuccess(step: Processor)
  {
    forall u, subs, id :: step(u, subs, id).submissions ==
      if step(u, subs, id).result.Ok? then subs + [id] else subs
  }

  /**
   * The loop over the listed submission ids. The incremental run
   * (`skipProcessed`) passes over ids already in the processed list; the
   * full run processes every id. The first failure ends the loop.
   */
  function Loop(step: Processor, userlines: Userlines, submissions: seq<SubmissionId>,
                ids: seq<SubmissionId>, skipProcessed: bool): Run
    decreases |ids|
  {
    if ids == [] then Run(userlines, submissions, [], None)
    else if skipProcessed && ids[0] in submissions then
      Loop(step, userlines, submissions, ids[1..], skipProcessed)
    else
      var s := step(userlines, submissions, ids[0]);
      if s.result.Err? then Run(s.userlines, s.submissions, [], Some(s.result.error))
      else
        var rest := Loop(step, s.userlines, s.submissions, ids[1..], skipProcessed);
        rest.(artifacts := [s.result.value] + rest.artifacts)
  }

  /** One turn of the loop on an id it passes over. */
  lemma LoopSkips(step: Processor, userlines: Userlines, submissions: seq<SubmissionId>,
                  ids: seq<SubmissionId>, skipProcessed: bool)
    requires ids != [] && skipProcessed && ids[0] in submissions
    ensures Loop(step, userlines, submissions, ids, skipProcessed)
            == Loop(step, userlines, submissions, ids[1..], skipProcessed)
  {
  }

  /** One turn of the loop on an id it processes: a failure ends the loop, a success goes on with the new state. */
  lemma LoopProcesses(step: Processor, userlines: Userlines, submissions: seq<SubmissionId>,
                      ids: seq<SubmissionId>, skipProcessed: bool)
    requires ids != [] && !(skipProcessed && ids[0] in submissions)
    ensures var s := step(userlines, submissions, ids[0]);
            var rest := Loop(step, s.userlines, s.submissions, ids[1..], skipProcessed);
            Loop(step, userlines, submissions, ids, skipProcessed)
            == if s.result.Err? then Run(s.userlines, s.submissions, [], Some(s.result.error))
               else rest.(artifacts := [s.result.value] + rest.artifacts)
  {
  }

  /**
   * The loop after some artifacts are out, advanced by one id: either the id
   * is passed over, or its step ends the loop, or its artifact joins the rest.
   */
  lemma LoopAdvances(step: Processor, userlines: Userlines, submissions: seq<SubmissionId>,
                     ids: seq<SubmissionId>, skipProcessed: bool, done: seq<Artifact>, whole: Run)
    requires ids != []
    requires var rest := Loop(step, userlines, submissions, ids, skipProcessed);
             whole == rest.(artifacts := done + rest.artifacts)
    ensures skipProcessed && ids[0] in submissions ==>
              var rest := Loop(step, userlines, submissions, ids[1..], skipProcessed);
              whole == rest.(artifacts := done + rest.artifacts)
    ensures !(skipProcessed && ids[0] in submissions) ==>
              var s := step(userlines, submissions, ids[0]);
              if s.result.Err? then whole == Run(s.userlines, s.submissions, done, Some(s.result.error))
              else
                var rest := Loop(step, s.userlines, s.submissions, ids[1..], skipProcessed);
                whole == rest.(artifacts := (done + [s.result.value]) + rest.artifacts)
  {
    if skipProcessed && ids[0] in submissions {
      LoopSkips(step, userlines, submissions, ids, skipProcessed);
    } else {
      LoopProcesses(step, userlines, submissions, ids, skipProcessed);
      var s := step(userlines, submissions, ids[0]);
      if s.result.Err? {
        assert done + [] == done;
      } else {
        var rest := Loop(step, s.userlines, s.submissions, ids[1..], skipProcessed);
        assert (done + [s.result.value]) + rest.artifacts == done + ([s.result.value] + rest.artifacts);
      }
    }
  }

  /** The processor applied: `Process` on the fetched details. */
  lemma ProcessingApplies(setup: Setup, env: Env, fetch: SubmissionId -> Details, userlines: Userlines,
                          submissions: seq<SubmissionId>, id: SubmissionId)
    requires SetupValid(setup)
    ensures Processing(setup, env, fetch)(userlines, submissions, id)
            == Process(setup, env, IntKeys, userlines, submissions, id, fetch(id))
  {
  }

  /** `process_submission` with the form's setup, each submission's details fetched by id. */
  function Processing(setup: Setup, env: Env, fetch: SubmissionId -> Details): (step: Processor)
    requires SetupValid(setup)
    ensures AppendsOnSuccess(step)
  {
    var step := (u: Userlines, subs: seq<SubmissionId>, id: SubmissionId) => Process(setup, env, IntKeys, u, subs, id, fetch(id));
    assert AppendsOnSuccess(step) by {
      forall u, subs, id
        ensures step(u, subs, id).submissions == if step(u, subs, id).result.Ok? then subs + [id] else subs
      {
        assert step(u, subs, id) == Process(setup, env, IntKeys, u, subs, id, fetch(id));
      }
    }
    step
  }

  /** The download loop of the program. */
  function Download(setup: Setup, env: Env, fetch: SubmissionId -> Details, userlines: Userlines,
                    submissions: seq<SubmissionId>, ids: seq<SubmissionId>, skipProcessed: bool): Run
    requires SetupValid(setup)
  {
    Loop(Processing(setup, env, fetch), userlines, submissions, ids, skipProcessed)
  }

  /** The two fields the document name is built from besides the id. */
  predicate HasNameFields(shortnames: map<string, seq<string>>)
  {
    "full_legal_name" in shortnames && "esp_username" in shortnames
  }

  /** A processor after which the ledger still has contiguous versions, whether it succeeded or not. */
  ghost predicate KeepsLedgerValid(step: Processor)
  {
    forall u, subs, id :: LedgerValid(u) ==> LedgerValid(step(u, subs, id).userlines)
  }

  /** `process_submission` keeps the ledger's versions contiguous once the name fields are known. */
  lemma ProcessingKeepsLedgerValid(setup: Setup, env: Env, fetch: SubmissionId -> Details)
    requires SetupValid(setup) && HasNameFields(setup.shortnames)
    ensures KeepsLedgerValid(Processing(setup, env, fetch))
  {
    var step := Processing(setup, env, fetch);
    forall u, subs, id | LedgerValid(u)
      ensures LedgerValid(step(u, subs, id).userlines)
    {
      ProcessingApplies(setup, env, fetch, u, subs, id);
      ProcessKeepsLedgerValid(setup, env, IntKeys, u, subs, id, fetch(id));
    }
  }

  /** The loop keeps a processor's ledger invariant over every id, up to and including a failing one. */
  lemma {:induction false} LoopKeepsLedgerValid(step: Processor, userlines: Userlines, submissions: seq<SubmissionId>,
                                                ids: seq<SubmissionId>, skipProcessed: bool)
    requires KeepsLedgerValid(step) && LedgerValid(userlines)
    ensures LedgerValid(Loop(step, userlines, submissions, ids, skipProcessed).userlines)
    decreases |ids|
  {
    if ids != [] {
      if skipProcessed && ids[0] in submissions {
        LoopSkips(step, userlines, submissions, ids, skipProcessed);
        LoopKeepsLedgerValid(step, userlines, submissions, ids[1..], skipProcessed);
      } else {
        LoopProcesses(step, userlines, submissions, ids, skipProcessed);
        var s := step(userlines, submissions, ids[0]);
        assert LedgerValid(s.userlines);
        if s.result.Ok? {
          LoopKeepsLedgerValid(step, s.userlines, s.submissions, ids[1..], skipProcessed);
        }
      }
    }
  }

  /** A download run, finished or stopped by an error, leaves a ledger with contiguous versions. */
  lemma DownloadKeepsLedgerValid(setup: Setup, env: Env, fetch: SubmissionId -> Details, userlines: Userlines,
                                 submissions: seq<SubmissionId>, ids: seq<SubmissionId>, skipProcessed: bool)
    requires SetupValid(setup)
    ensures HasNameFields(setup.shortnames) && LedgerValid(userlines) ==>
              LedgerValid(Download(setup, env, fetch, userlines, submissions, ids, skipProcessed).userlines)
  {
    if HasNameFields(setup.shortnames) && LedgerValid(userlines) {
      ProcessingKeepsLedgerValid(setup, env, fetch);
      LoopKeepsLedgerValid(Processing(setup, env, fetch), userlines, submissions, ids, skipProcessed);
    }
  }

  /** A processed list that grew by part of the rest grew by part of the whole, from its head. */
  lemma PrefixExtends(submissions: seq<SubmissionId>, x: SubmissionId, t: seq<SubmissionId>,
                      after: seq<SubmissionId>, complete: bool)
    requires complete ==> after == (submissions + [x]) + t
    requires !complete ==> exists n :: 0 <= n < |t| && after == (submissions + [x]) + t[..n]
    ensures complete ==> after == submissions + ([x] + t)
    ensures !complete ==> exists n :: 0 <= n < |[x] + t| && after == submissions + ([x] + t)[..n]
  {
    if !complete {
      var n :| 0 <= n < |t| && after == (submissions + [x]) + t[..n];
      assert ([x] + t)[..n + 1] == [x] + t[..n];
    }
  }

  /**
   * The incremental run processes the listed ids not yet processed, in list
   * order and each once: all of them when it completes, a prefix of them
   * when it stops on an error; one document is made per processed id.
   */
  lemma {:induction false} IncrementalProcessesFreshIds(step: Processor, userlines: Userlines,
                                                         submissions: seq<SubmissionId>, ids: seq<SubmissionId>)
    requires AppendsOnSuccess(step)
    ensures var r := Loop(step, userlines, submissions, ids, true);
            && (r.error.None? ==> r.submissions == submissions + Fresh(ids, submissions))
            && (r.error.Some? ==> exists n :: 0 <= n < |Fresh(ids, submissions)|
                                           && r.submissions == submissions + Fresh(ids, submissions)[..n])
            && |r.submissions| == |submissions| + |r.artifacts|
    decreases |ids|
  {
    if ids != [] {
      var x := ids[0];
      if x in submissions {
        IncrementalProcessesFreshIds(step, userlines, submissions, ids[1..]);
        assert Fresh(ids, submissions) == Fresh(ids[1..], submissions);
      } else {
        var s := step(userlines, submissions, x);
        var f := Fresh(ids, submissions);
        var t := Fresh(ids[1..], submissions + [x]);
        assert f == [x] + t;
        if s.result.Err? {
          assert submissions + f[..0] == submissions;
        } else {
          IncrementalProcessesFreshIds(step, s.userlines, s.submissions, ids[1..]);
          var r := Loop(step, s.userlines, s.submissions, ids[1..], true);
          PrefixExtends(submissions, x, t, r.submissions, r.error.None?);
        }
      }
    }
  }

  /** The full run processes every listed id in order, repeats included. */
  lemma {:induction false} FullProcessesAllIds(step: Processor, userlines: Userlines,
                                                submissions: seq<SubmissionId>, ids: seq<SubmissionId>)
    requires AppendsOnSuccess(step)
    ensures var r := Loop(step, userlines, submissions, ids, false);
            && (r.error.None? ==> r.submissions == submissions + ids)
            && (r.error.Some? ==> exists n :: 0 <= n < |ids| && r.submissions == submissions + ids[..n])
    decreases |ids|
  {
    if ids != [] {
      var x := ids[0];
      var t := ids[1..];
      var s := step(userlines, submissions, x);
      LoopProcesses(step, userlines, submissions, ids, false);
      if s.result.Err? {
        assert submissions + ids[..0] == submissions;
      } else {
        FullProcessesAllIds(step, s.userlines, s.submissions, t);
        var r := Loop(step, s.userlines, s.submissions, t, false);
        PrefixExtends(submissions, x, t, r.submissions, r.error.None?);
        assert ids == [x] + t;
      }
    }
  }

  /** When every listed id has been processed, the incremental run does nothing. */
  lemma {:induction false} IncrementalOfProcessedIsNoOp(step: Processor, userlines: Userlines,
                                                         submissions: seq<SubmissionId>, ids: seq<SubmissionId>)
    requires forall i :: 0 <= i < |ids| ==> ids[i] in submissions
    ensures Loop(step, userlines, submissions, ids, true) == Run(userlines, submissions, [], None)
    decreases |ids|
  {
    if ids != [] {
      IncrementalOfProcessedIsNoOp(step, userlines, submissions, ids[1..]);
    }
  }

  /** A second incremental run over the same listing after a completed one changes nothing. */
  lemma SecondRunIsNoOp(setup: Setup, env: Env, fetch: SubmissionId -> Details, userlines: Userlines,
                        submissions: seq<SubmissionId>, ids: seq<SubmissionId>)
    requires SetupValid(setup)
    requires Download(setup, env, fetch, userlines, submissions, ids, true).error.None?
    ensures var r := Download(setup, env, fetch, userlines, submissions, ids, true);
            Download(setup, env, fetch, r.userlines, r.submissions, ids, true) == Run(r.userlines, r.submissions, [], None)
  {
    var step := Processing(setup, env, fetch);
    var r := Loop(step, userlines, submissions, ids, true);
    IncrementalProcessesFreshIds(step, userlines, submissions, ids);
    FreshIsNewIds(ids, submissions);
    forall i | 0 <= i < |ids| ensures ids[i] in r.submissions {
      assert ids[i] in ids;
    }
    IncrementalOfProcessedIsNoOp(step, r.userlines, r.submissions, ids);
  }

  /**
   * Resuming after a failure: a run that starts from the processed list the
   * failed run left, and completes, ends with exactly the processed list an
   * uninterrupted run would have had, whatever ledger it resumes with.
   */
  lemma ResumeCompletes(step: Processor, userlines: Userlines, submissions: seq<SubmissionId>,
                        ids: seq<SubmissionId>, resumed: Userlines)
    requires AppendsOnSuccess(step)
    ensures var r := Loop(step, userlines, submissions, ids, true);
            var r2 := Loop(step, resumed, r.submissions, ids, true);
            r2.error.None? ==> r2.submissions == submissions + Fresh(ids, submissions)
  {
    var r := Loop(step, userlines, submissions, ids, true);
    IncrementalProcessesFreshIds(step, userlines, submissions, ids);
    var f := Fresh(ids, submissions);
    var n: nat;
    if r.error.None? {
      n := |f|;
      assert f[..n] == f;
    } else {
      n :| n < |f| && r.submissions == submissions + f[..n];
    }
    var done := r.submissions;
    assert done == submissions + f[..n];
    assert Fresh(ids, done) == f[n..] by {
      FreshAfterPrefix(ids, submissions, n);
    }
    var r2 := Loop(step, resumed, done, ids, true);
    if r2.error.None? {
      IncrementalProcessesFreshIds(step, resumed, done, ids);
      assert r2.submissions == done + f[n..];
      PrefixThenRest(submissions, f, n);
    }
  }

  lemma PrefixThenRest(front: seq<SubmissionId>, s: seq<SubmissionId>, n: nat)
    requires n <= |s|
    ensures (front + s[..n]) + s[n..] == front + s
  {
    assert s[..n] + s[n..] == s;
  }

  /** On a complete listing the full run's processed list is the listing itself, from an empty start. */
  lemma FullRunRecordsListing(setup: Setup, env: Env, fetch: SubmissionId -> Details, ids: seq<SubmissionId>)
    requires SetupValid(setup)
    requires Download(setup, env, fetch, map[], [], ids, false).error.None?
    ensures Download(setup, env, fetch, map[], [], ids, false).submissions == ids
  {
    FullProcessesAllIds(Processing(setup, env, fetch), map[], [], ids);
    assert [] + ids == ids;
  }

  /** `exception_handler`'s rule: the state is saved when something was processed and the caller asks for it. */
  predicate SavesOnError(submissions: seq<SubmissionId>, saveRequested: bool)
  {
    |submissions| != 0 && saveRequested
  }

  /**
   * The saved state can hold a half-processed submission: a submission whose
   * timestamp cannot be read is left out of the processed list, but its
   * version is already recorded and `"next"` advanced, and the state is then
   * saved whenever an earlier submission was processed.
   */
  lemma HalfProcessedSubmissionIsSaved(setup: Setup, env: Env, userlines: Userlines,
                                       submissions: seq<SubmissionId>, id: SubmissionId, details: Details)
    requires SetupValid(setup)
    requires submissions != []
    requires Process(setup, env, IntKeys, userlines, submissions, id, details).result == Err(BadTimestamp(details.timestamp))
    ensures var s := Process(setup, env, IntKeys, userlines, submissions, id, details);
            && SavesOnError(s.submissions, true)
            && s.userlines != userlines
            && s.submissions == submissions
  {
    ProcessFails(setup, env, IntKeys, userlines, submissions, id, details);
    var s := Process(setup, env, IntKeys, userlines, submissions, id, details);
    var key :| key in s.userlines && s.userlines[key].next == VersionFor(userlines, key) + 1
               && NumberKey(TextKeys, VersionFor(userlines, key)) in s.userlines[key].files;
    assert s.userlines[key] != FilesOfEntry(userlines, key);
  }

  function FilesOfEntry(userlines: Userlines, key: Atom): Entry
  {
    if key in userlines then userlines[key] else Entry(1, map[])
  }

  /** The number of result pages of 100 for `count` submissions: ceil(count / 100), none for a non-positive count. */
  function PageCount(count: int): (p: nat)
    ensures count <= 0 ==> p == 0
    ensures count > 0 ==> (p - 1) * 100 < count <= p * 100
  {
    if count <= 0 then 0 else (count + 99) / 100
  }

  /**
   * The ids of pages 1 .. `pages`, each page's ids in order, the pages in
   * ascending order; the first page that cannot be fetched is the error.
   */
  function Listed(fetchPage: int -> Option<seq<SubmissionId>>, pages: nat): Result<seq<SubmissionId>, Error>
  {
    if pages == 0 then Ok([])
    else
      var prev := Listed(fetchPage, pages - 1);
      if prev.Err? then prev
      else if fetchPage(pages).None? then Err(HttpError(pages))
      else Ok(prev.value + fetchPage(pages).value)
  }

  /** The listing succeeds exactly when every page fetches; otherwise it fails at the first page that does not. */
  lemma {:induction false} ListedOutcome(fetchPage: int -> Option<seq<SubmissionId>>, pages: nat)
    ensures var r := Listed(fetchPage, pages);
            && (r.Ok? <==> forall n :: 1 <= n <= pages ==> fetchPage(n).Some?)
            && (r.Err? ==> exists n :: 1 <= n <= pages && r.error == HttpError(n) && fetchPage(n).None?
                                     && forall m :: 1 <= m < n ==> fetchPage(m).Some?)
  {
    if pages > 0 {
      ListedOutcome(fetchPage, pages - 1);
      if Listed(fetchPage, pages - 1).Ok? && fetchPage(pages).None? {
        assert forall m :: 1 <= m < pages ==> fetchPage(m).Some?;
      }
    }
  }

  /** Fetching one more page appends exactly that page's ids. */
  lemma ListedAppendsPage(fetchPage: int -> Option<seq<SubmissionId>>, pages: nat)
    requires Listed(fetchPage, pages + 1).Ok?
    ensures Listed(fetchPage, pages).Ok? && fetchPage(pages + 1).Some?
    ensures Listed(fetchPage, pages + 1).value == Listed(fetchPage, pages).value + fetchPage(pages + 1).value
  {
  }

  /** Once a page fails, the pages after it are not fetched. */
  lemma {:induction false} ListedStopsAtError(fetchPage: int -> Option<seq<SubmissionId>>, k: nat, pages: nat)
    requires k <= pages && Listed(fetchPage, k).Err?
    ensures Listed(fetchPage, pages) == Listed(fetchPage, k)
    decreases pages - k
  {
    if k < pages {
      ListedStopsAtError(fetchPage, k, pages - 1);
    }
  }

  /** The submissions count as the form reports it, parsed, and the listing it leads to. */
  function ListSubmissionsResult(countText: string, fetchPage: int -> Option<seq<SubmissionId>>)
    : (r: Result<seq<SubmissionId>, Error>)
    ensures ParseInt(countText).None? ==> r == Err(NotAnInteger(countText))
    ensures ParseInt(countText).Some? ==> r == Listed(fetchPage, PageCount(ParseInt(countText).value))
  {
    var count := ParseInt(countText);
    if count.None? then Err(NotAnInteger(countText))
    else Listed(fetchPage, PageCount(count.value))
  }

  /** A successful listing holds every id of every page up to its page count. */
  lemma {:induction false} ListedHasEveryPage(fetchPage: int -> Option<seq<SubmissionId>>, pages: nat, k: nat)
    requires Listed(fetchPage, pages).Ok? && 1 <= k <= pages
    ensures fetchPage(k).Some?
    ensures forall x :: x in fetchPage(k).value ==> x in Listed(fetchPage, pages).value
  {
    ListedAppendsPage(fetchPage, pages - 1);
    if k < pages {
      ListedHasEveryPage(fetchPage, pages - 1, k);
    }
  }

  /**
   * An update run lists by the count saved at the last run. With 100 saved
   * and a second page on the server now, the second page is not requested,
   * and its submission is never listed.
   */
  lemma StaleCountMissesNewSubmission(fetchPage: int -> Option<seq<SubmissionId>>, x: SubmissionId)
    requires fetchPage(1).Some? && x !in fetchPage(1).value && fetchPage(2) == Some([x])
    ensures ListSubmissionsResult(IntToStr(100), fetchPage) == Ok(fetchPage(1).value)
    ensures x !in ListSubmissionsResult(IntToStr(100), fetchPage).value
  {
    ParseIntOfIntToStr(100);
    assert PageCount(100) == 1;
    assert Listed(fetchPage, 0) == Ok([]);
    assert [] + fetchPage(1).value == fetchPage(1).value;
  }

  /** The listing by the form's current submissions count, as the update run evidently intends. */
  function CurrentListing(liveCount: int, fetchPage: int -> Option<seq<SubmissionId>>): (r: Result<seq<SubmissionId>, Error>)
    ensures r.Ok? ==> forall k, x :: 1 <= k <= PageCount(liveCount) && fetchPage(k).Some? && x in fetchPage(k).value
                                  ==> x in r.value
  {
    var r := Listed(fetchPage, PageCount(liveCount));
    forall k, x | r.Ok? && 1 <= k <= PageCount(liveCount) && fetchPage(k).Some? && x in fetchPage(k).value
      ensures x in r.value
    {
      ListedHasEveryPage(fetchPage, PageCount(liveCount), k);
    }
    r
  }

  /** With the current count of 150, the same second page is fetched and its submission listed. */
  lemma CurrentCountListsNewSubmission(fetchPage: int -> Option<seq<SubmissionId>>, x: SubmissionId)
    requires fetchPage(1).Some? && x !in fetchPage(1).value && fetchPage(2) == Some([x])
    ensures CurrentListing(150, fetchPage).Ok? && x in CurrentListing(150, fetchPage).value
  {
    assert PageCount(150) == 2;
    ListedOutcome(fetchPage, 2);
  }

  /**
   * `finalize`'s verification: the first rendered document of the walked
   * versions, in `order`, that is not in the directory once the auxiliary
   * files are removed. The program probes the version keys as ints
   * (`IntKeys`).
   */
  function FinalCheck(userlines: Userlines, order: seq<Atom>, listing: seq<string>, style: KeyStyle): Option<Error>
    requires forall i :: 0 <= i < |order| ==> order[i] in userlines
  {
    var missing := MissingPdf(Names(userlines, order, style), Cleaned(listing));
    if missing.None? then None else Some(MissingFile(missing.value))
  }

  /**
   * As written, the check can never fail: the ledger's version keys are
   * strings, the probe is an int, so no version is ever walked.
   */
  lemma FinalCheckAsWrittenIsVacuous(userlines: Userlines, order: seq<Atom>, listing: seq<string>)
    requires forall i :: 0 <= i < |order| ==> order[i] in userlines
    requires TextVersionKeys(userlines)
    ensures FinalCheck(userlines, order, listing, IntKeys).None?
  {
    NamesWithIntKeysAreEmpty(userlines, order);
  }

  /** A one-submitter ledger whose only document was never rendered. */
  function UnrenderedLedger(): Userlines
  {
    map[AInt(7) := Entry(2, map[NumberKey(TextKeys, 1) := "7 - Ada - ada (v1)"])]
  }

  /** The as-written check accepts an empty directory, the text-key probe reports the missing document. */
  lemma FinalCheckOnEmptyDirectory()
    ensures FinalCheck(UnrenderedLedger(), [AInt(7)], [], IntKeys).None?
    ensures FinalCheck(UnrenderedLedger(), [AInt(7)], [], TextKeys) == Some(MissingFile("7 - Ada - ada (v1).pdf"))
  {
    var files := UnrenderedLedger()[AInt(7)].files;
    var k := NumberKey(TextKeys, 1);
    assert IntToStr(1) == "1";
    assert Walk(files - {k}, TextKeys, 2) == [] by {
      assert files - {k} == map[];
    }
    assert Walk(files, TextKeys, 1) == ["7 - Ada - ada (v1)"];
    assert Names(UnrenderedLedger(), [AInt(7)], TextKeys) == ["7 - Ada - ada (v1)"];
    assert Walk(files, IntKeys, 1) == [];
    assert "7 - Ada - ada (v1)" + ".pdf" == "7 - Ada - ada (v1).pdf";
    assert Cleaned([]) == [];
  }

  /**
   * Probing the version keys as text, the check on a valid ledger succeeds
   * exactly when every recorded version of every listed submitter has its
   * `.pdf` in the directory.
   */
  lemma FinalCheckWithTextKeys(userlines: Userlines, order: seq<Atom>, listing: seq<string>)
    requires forall i :: 0 <= i < |order| ==> order[i] in userlines
    requires LedgerValid(userlines)
    ensures FinalCheck(userlines, order, listing, TextKeys).None? <==>
              forall name :: RecordedIn(userlines, order, name) ==> name + ".pdf" in listing
  {
    var names := Names(userlines, order, TextKeys);
    if FinalCheck(userlines, order, listing, TextKeys).None? {
      forall name | RecordedIn(userlines, order, name) ensures name + ".pdf" in listing {
        NamesOfValidLedger(userlines, order, name);
        var i :| 0 <= i < |names| && names[i] == name;
        CleanedKeepsPdfs(listing, name);
      }
    } else {
      var i :| 0 <= i < |names| && names[i] + ".pdf" !in Cleaned(listing);
      NamesOfValidLedger(userlines, order, names[i]);
      CleanedKeepsPdfs(listing, names[i]);
    }
  }

  /**
   * `check`'s missing list before sorting: the name of every registered
   * student, in `order`, whose id has no ledger entry.
   */
  function Missing(submitted: map<string, string>, order: seq<string>, userlines: Userlines): (r: seq<Atom>)
    requires forall i :: 0 <= i < |order| ==> order[i] in submitted
    ensures |r| <= |order|
  {
    if order == [] then []
    else
      (if AStr(order[0]) !in userlines then [AStr(submitted[order[0]])] else [])
      + Missing(submitted, order[1..], userlines)
  }

  /** A name is missing exactly when some registered student of that name has no ledger entry. */
  lemma {:induction false} MissingMembers(submitted: map<string, string>, order: seq<string>, userlines: Userlines)
    requires forall i :: 0 <= i < |order| ==> order[i] in submitted
    ensures forall x :: x in Missing(submitted, order, userlines) <==>
              exists i :: 0 <= i < |order| && AStr(order[i]) !in userlines && x == AStr(submitted[order[i]])
  {
    if order != [] {
      MissingMembers(submitted, order[1..], userlines);
      assert forall i :: 0 < i < |order| ==> order[i] == order[1..][i - 1];
    }
  }

  /** Every registered student is missing exactly when none has a ledger entry. */
  lemma {:induction false} MissingAll(submitted: map<string, string>, order: seq<string>, userlines: Userlines)
    requires forall i :: 0 <= i < |order| ==> order[i] in submitted
    ensures |Missing(submitted, order, userlines)| == |order| <==> forall i :: 0 <= i < |order| ==> AStr(order[i]) !in userlines
  {
    if order != [] {
      MissingAll(submitted, order[1..], userlines);
      assert forall i :: 0 < i < |order| ==> order[i] == order[1..][i - 1];
    }
  }

  /**
   * The missing list is a filter: the answer's entries taken apart give the
   * missing names of each part, one after the other.
   */
  lemma {:induction false} MissingAppend(submitted: map<string, string>, a: seq<string>, b: seq<string>,
                                         userlines: Userlines)
    requires forall i :: 0 <= i < |a| ==> a[i] in submitted
    requires forall i :: 0 <= i < |b| ==> b[i] in submitted
    ensures Missing(submitted, a + b, userlines) == Missing(submitted, a, userlines) + Missing(submitted, b, userlines)
  {
    if a == [] {
      assert a + b == b;
    } else {
      var ab := a + b;
      assert ab[0] == a[0] && ab[1..] == a[1..] + b;
      MissingAppend(submitted, a[1..], b, userlines);
    }
  }

  /** The exempted students' names, in the order the answer's map is walked. */
  function Bypassed(bypass: map<string, string>, order: seq<string>): (r: seq<Atom>)
    requires forall i :: 0 <= i < |order| ==> order[i] in bypass
    ensures |r| == |order| && forall i :: 0 <= i < |order| ==> r[i] == AStr(bypass[order[i]])
  {
    if order == [] then [] else [AStr(bypass[order[0]])] + Bypassed(bypass, order[1..])
  }

  /** `order` lists every key in `keys` exactly once, as walking a Python dict does. */
  ghost predicate Enumerates(order: seq<string>, keys: set<string>)
  {
    && (forall i :: 0 <= i < |order| ==> order[i] in keys)
    && (forall k :: k in keys ==> k in order)
    && (forall i, j :: 0 <= i < j < |order| ==> order[i] != order[j])
  }

  /** The registered students among `order` named `x` that have no ledger entry. */
  ghost function Unrecorded(submitted: map<string, string>, order: seq<string>, userlines: Userlines,
                            x: Atom): set<string>
  {
    set k | k in submitted && k in order && AStr(k) !in userlines && AStr(submitted[k]) == x
  }

  /** Taking one more key in front adds it to the students counted, if it qualifies and is new. */
  lemma UnrecordedStep(submitted: map<string, string>, o: string, rest: seq<string>, userlines: Userlines, x: Atom)
    requires o in submitted
    ensures |Unrecorded(submitted, [o] + rest, userlines, x)|
            == |Unrecorded(submitted, rest, userlines, x)|
               + (if AStr(o) !in userlines && AStr(submitted[o]) == x && o !in rest then 1 else 0)
  {
    var later := Unrecorded(submitted, rest, userlines, x);
    forall k ensures k in [o] + rest <==> k == o || k in rest {}
    if AStr(o) !in userlines && AStr(submitted[o]) == x && o !in rest {
      assert Unrecorded(submitted, [o] + rest, userlines, x) == later + {o};
    } else {
      assert Unrecorded(submitted, [o] + rest, userlines, x) == later;
    }
  }

  /** The first key walked contributes its name once, if it has no ledger entry. */
  lemma MissingHeadCount(submitted: map<string, string>, order: seq<string>, userlines: Userlines, x: Atom)
    requires order != [] && forall i :: 0 <= i < |order| ==> order[i] in submitted
    ensures multiset(Missing(submitted, order, userlines))[x]
            == multiset(Missing(submitted, order[1..], userlines))[x]
               + (if AStr(order[0]) !in userlines && AStr(submitted[order[0]]) == x then 1 else 0)
  {
    var head := if AStr(order[0]) !in userlines then [AStr(submitted[order[0]])] else [];
    assert multiset(Missing(submitted, order, userlines))
        == multiset(head) + multiset(Missing(submitted, order[1..], userlines));
  }

  /**
   * Walking distinct keys, a name is missing once for every student of that
   * name among them with no ledger entry.
   */
  lemma {:induction false} MissingCounts(submitted: map<string, string>, order: seq<string>,
                                         userlines: Userlines, x: Atom)
    requires forall i :: 0 <= i < |order| ==> order[i] in submitted
    requires forall i, j :: 0 <= i < j < |order| ==> order[i] != order[j]
    ensures multiset(Missing(submitted, order, userlines))[x] == |Unrecorded(submitted, order, userlines, x)|
  {
    if order == [] {
      assert Unrecorded(submitted, order, userlines, x) == {};
    } else {
      assert order == [order[0]] + order[1..];
      assert order[0] !in order[1..];
      MissingCounts(submitted, order[1..], userlines, x);
      UnrecordedStep(submitted, order[0], order[1..], userlines, x);
      MissingHeadCount(submitted, order, userlines, x);
    }
  }

  /**
   * Walking the whole answer, the missing list names every registered
   * student without a ledger entry once, whatever the walking order.
   */
  lemma MissingCountsOfKeys(submitted: map<string, string>, order: seq<string>, userlines: Userlines, x: Atom)
    requires Enumerates(order, submitted.Keys)
    ensures multiset(Missing(submitted, order, userlines))[x]
            == |set k | k in submitted && AStr(k) !in userlines && AStr(submitted[k]) == x|
  {
    MissingCounts(submitted, order, userlines, x);
    assert Unrecorded(submitted, order, userlines, x)
        == (set k | k in submitted && AStr(k) !in userlines && AStr(submitted[k]) == x);
  }

  /** The exempted list is the missing list against an empty ledger. */
  lemma {:induction false} BypassedIsMissing(bypass: map<string, string>, order: seq<string>)
    requires forall i :: 0 <= i < |order| ==> order[i] in bypass
    ensures Bypassed(bypass, order) == Missing(bypass, order, map[])
  {
    if order != [] {
      assert forall i :: 0 <= i < |order[1..]| ==> order[1..][i] == order[i + 1];
      BypassedIsMissing(bypass, order[1..]);
    }
  }

  /** Walking the whole map, every exempted student's name is listed once. */
  lemma BypassedCounts(bypass: map<string, string>, order: seq<string>, x: Atom)
    requires Enumerates(order, bypass.Keys)
    ensures multiset(Bypassed(bypass, order))[x] == |set k | k in bypass && AStr(bypass[k]) == x|
  {
    var none: Userlines := map[];
    BypassedIsMissing(bypass, order);
    MissingCounts(bypass, order, none, x);
    var named := set k | k in bypass && AStr(bypass[k]) == x;
    forall k ensures k in Unrecorded(bypass, order, none, x) <==> k in named {}
    assert Unrecorded(bypass, order, none, x) == named;
  }

  /**
   * A student processed under an int ESP id before the save is found again
   * by the text of that id in the reloaded ledger, and so is not missing.
   */
  lemma ProcessedStudentNotMissing(userlines: Userlines, espId: int)
    requires AInt(espId) in userlines
    ensures AStr(IntToStr(espId)) in JsonKeys(userlines)
  {
  }
}
