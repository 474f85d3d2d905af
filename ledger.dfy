/**
 * The version ledger (`config.userlines`) and the processed list
 * (`config.submissions`): how a submission's version is chosen and recorded,
 * how the index and the final check walk the versions of each submitter, how
 * the incremental run decides which submissions remain, and what a JSON
 * save-and-reload does to the ledger's keys.
 */
module Ledger {
  import opened Wrappers
  import opened Atoms
  import opened Text

  /**
   * One submitter's ledger record: the dictionary holding `"next"` and
   * one `str(version) -> base name` pair per version. `"next"` is a string
   * key and never equals a version key, so it is kept apart here.
   */
  datatype Entry = Entry(next: int, files: map<Atom, string>)

  type Userlines = map<Atom, Entry>

  type SubmissionId = string

  /**
   * How a number is used as a dictionary key: as `str(n)`, or as the int
   * itself. Version keys are written as text; the ESP id is used as an int.
   */
  datatype KeyStyle = TextKeys | IntKeys

  function NumberKey(style: KeyStyle, n: int): Atom
  {
    match style
    case TextKeys => AStr(IntToStr(n))
    case IntKeys => AInt(n)
  }

  lemma NumberKeyInjective(style: KeyStyle, a: int, b: int)
    requires NumberKey(style, a) == NumberKey(style, b)
    ensures a == b
  {
    if style == TextKeys { IntToStrInjective(a, b); }
  }

  /** The version the next submission under `key` gets: 1 for an unseen key, else its `"next"`. */
  function VersionFor(userlines: Userlines, key: Atom): int
  {
    if key in userlines then userlines[key].next else 1
  }

  function FilesOf(userlines: Userlines, key: Atom): map<Atom, string>
  {
    if key in userlines then userlines[key].files else map[]
  }

  /** Lines 331-336: the entry is created if needed and its `"next"` set one past the chosen version. */
  function Bump(userlines: Userlines, key: Atom): Userlines
  {
    userlines[key := Entry(VersionFor(userlines, key) + 1, FilesOf(userlines, key))]
  }

  /** Line 344: the base name is stored under `str(version)` in the submitter's entry. */
  function Record(userlines: Userlines, key: Atom, version: int, name: string): Userlines
    requires key in userlines
  {
    userlines[key := userlines[key].(files := userlines[key].files[NumberKey(TextKeys, version) := name])]
  }

  /**
   * The ledger update of one submission: the chosen version is 1 for an
   * unseen submitter and its `"next"` otherwise; afterwards `"next"` is one
   * more and that version's key names the new base name; every other
   * submitter, and every other version of this one, is unchanged.
   */
  lemma BumpThenRecord(userlines: Userlines, key: Atom, name: string)
    ensures var v := VersionFor(userlines, key);
            var u := Record(Bump(userlines, key), key, v, name);
            && v == (if key in userlines then userlines[key].next else 1)
            && u.Keys == userlines.Keys + {key}
            && u[key].next == v + 1
            && u[key].files[NumberKey(TextKeys, v)] == name
            && u[key].files.Keys == FilesOf(userlines, key).Keys + {NumberKey(TextKeys, v)}
            && (forall f :: f in FilesOf(userlines, key) && f != NumberKey(TextKeys, v) ==>
                  u[key].files[f] == FilesOf(userlines, key)[f])
            && (forall w :: w != v ==> (NumberKey(TextKeys, w) in u[key].files
                                        <==> NumberKey(TextKeys, w) in FilesOf(userlines, key)))
            && (forall k :: k in userlines && k != key ==> u[k] == userlines[k])
  {
    var v := VersionFor(userlines, key);
    forall w | w != v
      ensures NumberKey(TextKeys, w) != NumberKey(TextKeys, v)
    {
      if NumberKey(TextKeys, w) == NumberKey(TextKeys, v) { NumberKeyInjective(TextKeys, w, v); }
    }
  }

  /** The version keys of versions 1 .. next-1. */
  ghost function NumberKeysBelow(next: int): set<Atom>
  {
    set v | 1 <= v < next :: NumberKey(TextKeys, v)
  }

  /** A well-kept entry: versions 1 .. next-1 recorded, nothing else, and next at least 1. */
  ghost predicate EntryValid(e: Entry)
  {
    e.next >= 1 && e.files.Keys == NumberKeysBelow(e.next)
  }

  ghost predicate LedgerValid(userlines: Userlines)
  {
    forall k :: k in userlines ==> EntryValid(userlines[k])
  }

  /** Versions stay contiguous from 1 and `"next"` stays one past the largest: the update keeps every entry valid. */
  lemma BumpThenRecordKeepsValid(userlines: Userlines, key: Atom, name: string)
    requires LedgerValid(userlines)
    ensures LedgerValid(Record(Bump(userlines, key), key, VersionFor(userlines, key), name))
  {
    var v := VersionFor(userlines, key);
    var u := Record(Bump(userlines, key), key, v, name);
    assert NumberKeysBelow(v + 1) == NumberKeysBelow(v) + {NumberKey(TextKeys, v)};
    if key !in userlines {
      assert NumberKeysBelow(1) == {};
    }
    assert EntryValid(u[key]);
  }

  /**
   * The versions listed from `version` on, following `"next"`-free keys
   * 1, 2, ... until the first missing one. Each visited key is dropped from
   * the map, which makes the walk terminate; distinct versions have distinct
   * keys, so this does not change what is found (see `WalkFindsContiguousVersions`).
   */
  function Walk(files: map<Atom, string>, style: KeyStyle, version: int): seq<string>
    decreases |files|
  {
    var k := NumberKey(style, version);
    if k in files then
      assert (files - {k}).Keys == files.Keys - {k};
      [files[k]] + Walk(files - {k}, style, version + 1)
    else []
  }

  /**
   * The walk from `version` lists the base names of versions version,
   * version+1, ... in order, all present, and stops exactly at the first
   * version that is missing: names recorded after a gap are not listed.
   */
  lemma {:induction false} WalkFindsContiguousVersions(files: map<Atom, string>, style: KeyStyle, version: int)
    ensures forall v :: version <= v < version + |Walk(files, style, version)| ==>
              NumberKey(style, v) in files
              && Walk(files, style, version)[v - version] == files[NumberKey(style, v)]
    ensures NumberKey(style, version + |Walk(files, style, version)|) !in files
    decreases |files|
  {
    var k := NumberKey(style, version);
    if k in files {
      var rest := files - {k};
      assert rest.Keys == files.Keys - {k};
      WalkFindsContiguousVersions(rest, style, version + 1);
      var w := Walk(files, style, version);
      var tail := Walk(rest, style, version + 1);
      assert w == [files[k]] + tail;
      forall v | version < v < version + |w|
        ensures NumberKey(style, v) in files && w[v - version] == files[NumberKey(style, v)]
      {
        assert w[v - version] == tail[v - (version + 1)];
      }
      var last := NumberKey(style, version + |w|);
      assert version + 1 + |tail| == version + |w|;
      assert last !in rest;
      if last == k { NumberKeyInjective(style, version + |w|, version); }
    }
  }

  /** A valid entry's walk from 1 lists every one of its versions, in order. */
  lemma ValidEntryWalk(e: Entry)
    requires EntryValid(e)
    ensures |Walk(e.files, TextKeys, 1)| == e.next - 1
    ensures forall v :: 1 <= v < e.next ==> Walk(e.files, TextKeys, 1)[v - 1] == e.files[NumberKey(TextKeys, v)]
  {
    var w := Walk(e.files, TextKeys, 1);
    WalkFindsContiguousVersions(e.files, TextKeys, 1);
    var n := |w|;
    if n < e.next - 1 {
      assert false;
    } else if n > e.next - 1 {
      var last := NumberKey(TextKeys, e.next);
      assert last in e.files;
      var v :| 1 <= v < e.next && NumberKey(TextKeys, v) == last;
      NumberKeyInjective(TextKeys, v, e.next);
      assert false;
    }
  }

  /** Entries whose version keys are all strings, as the code writes them and as JSON reloads them. */
  ghost predicate TextVersionKeys(userlines: Userlines)
  {
    forall k, f :: k in userlines && f in userlines[k].files ==> f.AStr?
  }

  /** Probing int keys in an entry whose keys are strings finds nothing. */
  lemma WalkWithIntKeysIsEmpty(files: map<Atom, string>, version: int)
    requires forall f :: f in files ==> f.AStr?
    ensures Walk(files, IntKeys, version) == []
  {
  }

  /** The base names of the submitters in `order`, each submitter's versions walked from 1. */
  function Names(userlines: Userlines, order: seq<Atom>, style: KeyStyle): seq<string>
    requires forall i :: 0 <= i < |order| ==> order[i] in userlines
  {
    if order == [] then []
    else Walk(userlines[order[0]].files, style, 1) + Names(userlines, order[1..], style)
  }

  lemma {:induction false} NamesWithIntKeysAreEmpty(userlines: Userlines, order: seq<Atom>)
    requires forall i :: 0 <= i < |order| ==> order[i] in userlines
    requires TextVersionKeys(userlines)
    ensures Names(userlines, order, IntKeys) == []
  {
    if order != [] {
      WalkWithIntKeysIsEmpty(userlines[order[0]].files, 1);
      NamesWithIntKeysAreEmpty(userlines, order[1..]);
    }
  }

  lemma NamesSnoc(userlines: Userlines, order: seq<Atom>, k: Atom, style: KeyStyle)
    requires forall i :: 0 <= i < |order| ==> order[i] in userlines
    requires k in userlines
    ensures Names(userlines, order + [k], style) == Names(userlines, order, style) + Walk(userlines[k].files, style, 1)
  {
    if order != [] {
      assert (order + [k])[1..] == order[1..] + [k];
      NamesSnoc(userlines, order[1..], k, style);
    }
  }

  /** The base name recorded for `version` of the submitter at `order[i]`. */
  ghost predicate RecordedIn(userlines: Userlines, order: seq<Atom>, name: string)
    requires forall i :: 0 <= i < |order| ==> order[i] in userlines
    requires LedgerValid(userlines)
  {
    exists i, v :: 0 <= i < |order| && 1 <= v < userlines[order[i]].next
                   && NumberKey(TextKeys, v) in userlines[order[i]].files
                   && name == userlines[order[i]].files[NumberKey(TextKeys, v)]
  }

  /** On a valid ledger the listing holds exactly the recorded base names of the submitters listed. */
  lemma {:induction false} NamesOfValidLedger(userlines: Userlines, order: seq<Atom>, name: string)
    requires forall i :: 0 <= i < |order| ==> order[i] in userlines
    requires LedgerValid(userlines)
    ensures name in Names(userlines, order, TextKeys) <==> RecordedIn(userlines, order, name)
  {
    if name in Names(userlines, order, TextKeys) {
      ListedNamesAreRecorded(userlines, order, name);
    }
    if RecordedIn(userlines, order, name) {
      RecordedNamesAreListed(userlines, order, name);
    }
  }

  lemma {:induction false} ListedNamesAreRecorded(userlines: Userlines, order: seq<Atom>, name: string)
    requires forall i :: 0 <= i < |order| ==> order[i] in userlines
    requires LedgerValid(userlines)
    requires name in Names(userlines, order, TextKeys)
    ensures RecordedIn(userlines, order, name)
  {
    var e := userlines[order[0]];
    var w := Walk(e.files, TextKeys, 1);
    assert Names(userlines, order, TextKeys) == w + Names(userlines, order[1..], TextKeys);
    if name in w {
      ValidEntryWalk(e);
      var j :| 0 <= j < |w| && w[j] == name;
      assert w[(j + 1) - 1] == e.files[NumberKey(TextKeys, j + 1)];
      assert NumberKey(TextKeys, j + 1) in e.files;
      assert 1 <= j + 1 < userlines[order[0]].next && name == userlines[order[0]].files[NumberKey(TextKeys, j + 1)];
    } else {
      ListedNamesAreRecorded(userlines, order[1..], name);
      var i, v :| 0 <= i < |order[1..]| && 1 <= v < userlines[order[1..][i]].next
                  && NumberKey(TextKeys, v) in userlines[order[1..][i]].files
                  && name == userlines[order[1..][i]].files[NumberKey(TextKeys, v)];
      assert order[i + 1] == order[1..][i];
      assert 1 <= v < userlines[order[i + 1]].next && name == userlines[order[i + 1]].files[NumberKey(TextKeys, v)];
    }
  }

  lemma {:induction false} RecordedNamesAreListed(userlines: Userlines, order: seq<Atom>, name: string)
    requires forall i :: 0 <= i < |order| ==> order[i] in userlines
    requires LedgerValid(userlines)
    requires RecordedIn(userlines, order, name)
    ensures name in Names(userlines, order, TextKeys)
  {
    var e := userlines[order[0]];
    var w := Walk(e.files, TextKeys, 1);
    ValidEntryWalk(e);
    var i, v :| 0 <= i < |order| && 1 <= v < userlines[order[i]].next
                && NumberKey(TextKeys, v) in userlines[order[i]].files
                && name == userlines[order[i]].files[NumberKey(TextKeys, v)];
    if i == 0 {
      assert w[v - 1] == name;
    } else {
      assert order[1..][i - 1] == order[i];
      RecordedNamesAreListed(userlines, order[1..], name);
    }
  }


  lemma {:induction false} NamesAppend(userlines: Userlines, a: seq<Atom>, b: seq<Atom>, style: KeyStyle)
    requires forall i :: 0 <= i < |a| ==> a[i] in userlines
    requires forall i :: 0 <= i < |b| ==> b[i] in userlines
    ensures Names(userlines, a + b, style) == Names(userlines, a, style) + Names(userlines, b, style)
  {
    if a == [] {
      assert a + b == b;
    } else {
      assert (a + b)[1..] == a[1..] + b;
      NamesAppend(userlines, a[1..], b, style);
    }
  }

  /** A directory entry `finalize` deletes before checking: a `.tex`, `.log` or `.aux` file. */
  predicate IsAuxiliary(name: string)
  {
    EndsWith(name, ".tex") || EndsWith(name, ".log") || EndsWith(name, ".aux")
  }

  /** The listing after the auxiliary files are deleted, in listing order. */
  function Cleaned(listing: seq<string>): seq<string>
  {
    if listing == [] then []
    else (if IsAuxiliary(listing[0]) then [] else [listing[0]]) + Cleaned(listing[1..])
  }

  /** The auxiliary files deleted, in listing order. */
  function Auxiliary(listing: seq<string>): seq<string>
  {
    if listing == [] then []
    else (if IsAuxiliary(listing[0]) then [listing[0]] else []) + Auxiliary(listing[1..])
  }

  /**
   * What remains is exactly the listing's names that are not auxiliary, and
   * what is deleted exactly those that are.
   */
  lemma {:induction false} CleanedMembers(listing: seq<string>)
    ensures forall n :: n in Cleaned(listing) <==> n in listing && !IsAuxiliary(n)
    ensures forall n :: n in Auxiliary(listing) <==> n in listing && IsAuxiliary(n)
  {
    if listing != [] {
      CleanedMembers(listing[1..]);
      assert listing == [listing[0]] + listing[1..];
    }
  }

  /** Cleaning one more listed name keeps exactly that name when it is not auxiliary. */
  lemma {:induction false} CleanedSnoc(listing: seq<string>, i: nat)
    requires i < |listing|
    ensures Cleaned(listing[..i + 1]) == Cleaned(listing[..i]) + (if IsAuxiliary(listing[i]) then [] else [listing[i]])
    decreases i
  {
    if i == 0 {
      assert listing[..1][1..] == [];
      assert Cleaned(listing[..0]) == [];
      assert Cleaned([]) == [];
    } else {
      var t := listing[1..];
      assert listing[..i + 1][1..] == t[..i];
      assert listing[..i][1..] == t[..i - 1];
      assert listing[..i + 1][0] == listing[..i][0] == listing[0];
      CleanedSnoc(t, i - 1);
      assert t[i - 1] == listing[i];
    }
  }

  /** Cleaning one more listed name deletes exactly that name when it is auxiliary. */
  lemma {:induction false} AuxiliarySnoc(listing: seq<string>, i: nat)
    requires i < |listing|
    ensures Auxiliary(listing[..i + 1]) == Auxiliary(listing[..i]) + (if IsAuxiliary(listing[i]) then [listing[i]] else [])
    decreases i
  {
    if i == 0 {
      assert listing[..1][1..] == [];
      assert Auxiliary(listing[..0]) == [];
      assert Auxiliary([]) == [];
    } else {
      var t := listing[1..];
      assert listing[..i + 1][1..] == t[..i];
      assert listing[..i][1..] == t[..i - 1];
      assert listing[..i + 1][0] == listing[..i][0] == listing[0];
      AuxiliarySnoc(t, i - 1);
      assert t[i - 1] == listing[i];
    }
  }

  /** Cleaning splits the listing: what is kept and what is deleted are together the listing, and each is in its order. */
  lemma {:induction false} CleanedPartitions(listing: seq<string>)
    ensures multiset(Cleaned(listing)) + multiset(Auxiliary(listing)) == multiset(listing)
  {
    if listing != [] {
      CleanedPartitions(listing[1..]);
      assert listing == [listing[0]] + listing[1..];
    }
  }

  lemma {:induction false} CleanedKeepsOrder(listing: seq<string>)
    ensures IsSubsequence(Cleaned(listing), listing) && IsSubsequence(Auxiliary(listing), listing)
  {
    if listing != [] {
      CleanedKeepsOrder(listing[1..]);
      SubsequenceStep(listing, Cleaned(listing[1..]), !IsAuxiliary(listing[0]));
      SubsequenceStep(listing, Auxiliary(listing[1..]), IsAuxiliary(listing[0]));
    }
  }

  lemma SubsequenceStep(listing: seq<string>, kept: seq<string>, keep: bool)
    requires listing != [] && IsSubsequence(kept, listing[1..])
    ensures IsSubsequence((if keep then [listing[0]] else []) + kept, listing)
  {
    if keep {
      assert ([listing[0]] + kept)[1..] == kept;
    } else {
      assert [] + kept == kept;
      SubsequenceOfTail(kept, listing);
    }
  }

  /** A rendered document `name + ".pdf"` is never deleted by the cleanup. */
  lemma CleanedKeepsPdfs(listing: seq<string>, name: string)
    ensures name + ".pdf" in Cleaned(listing) <==> name + ".pdf" in listing
  {
    var f := name + ".pdf";
    assert f[|f| - 4..] == ".pdf";
  }

  /** The first base name whose `.pdf` is not in the directory, as the missing file's name. */
  function MissingPdf(names: seq<string>, contents: seq<string>): (r: Option<string>)
    ensures r.None? <==> forall i :: 0 <= i < |names| ==> names[i] + ".pdf" in contents
    ensures r.Some? ==> exists i :: 0 <= i < |names| && r.value == names[i] + ".pdf"
                                 && r.value !in contents
                                 && forall j :: 0 <= j < i ==> names[j] + ".pdf" in contents
  {
    if names == [] then None
    else if names[0] + ".pdf" !in contents then Some(names[0] + ".pdf")
    else
      var r := MissingPdf(names[1..], contents);
      if r.Some? then
        ghost var i :| 0 <= i < |names[1..]| && r.value == names[1..][i] + ".pdf"
                     && r.value !in contents
                     && forall j :: 0 <= j < i ==> names[1..][j] + ".pdf" in contents;
        assert names[i + 1] == names[1..][i];
        r
      else r
  }

  /** Where every earlier name has its document, the first one without decides. */
  lemma MissingPdfAt(names: seq<string>, contents: seq<string>, j: nat)
    requires j < |names| && names[j] + ".pdf" !in contents
    requires forall p :: 0 <= p < j ==> names[p] + ".pdf" in contents
    ensures MissingPdf(names, contents) == Some(names[j] + ".pdf")
  {
    var r := MissingPdf(names, contents);
    var i :| 0 <= i < |names| && r.value == names[i] + ".pdf" && r.value !in contents
             && forall q :: 0 <= q < i ==> names[q] + ".pdf" in contents;
    assert i == j;
  }

  /** Names whose documents are all present do not change which one is missing next. */
  lemma {:induction false} MissingPdfAppend(a: seq<string>, b: seq<string>, contents: seq<string>)
    requires MissingPdf(a, contents).None?
    ensures MissingPdf(a + b, contents) == MissingPdf(b, contents)
  {
    if a != [] {
      assert (a + b)[1..] == a[1..] + b;
      assert a[0] + ".pdf" in contents;
      MissingPdfAppend(a[1..], b, contents);
    } else {
      assert a + b == b;
    }
  }

  /** Once a document is missing, later names do not change the answer. */
  lemma {:induction false} MissingPdfAfterHit(a: seq<string>, b: seq<string>, contents: seq<string>)
    requires MissingPdf(a, contents).Some?
    ensures MissingPdf(a + b, contents) == MissingPdf(a, contents)
  {
    assert a != [];
    assert (a + b)[0] == a[0];
    if a[0] + ".pdf" in contents {
      assert (a + b)[1..] == a[1..] + b;
      MissingPdfAfterHit(a[1..], b, contents);
    }
  }

  /** The submission ids an incremental run processes, in list order: each listed id not yet processed, once. */
  function Fresh(ids: seq<SubmissionId>, seen: seq<SubmissionId>): seq<SubmissionId>
  {
    if ids == [] then []
    else if ids[0] in seen then Fresh(ids[1..], seen)
    else [ids[0]] + Fresh(ids[1..], seen + [ids[0]])
  }

  /** Exactly the listed ids not already processed are processed, each once, in list order. */
  lemma {:induction false} FreshIsNewIds(ids: seq<SubmissionId>, seen: seq<SubmissionId>)
    ensures forall x :: x in Fresh(ids, seen) <==> x in ids && x !in seen
    ensures forall i, j :: 0 <= i < j < |Fresh(ids, seen)| ==> Fresh(ids, seen)[i] != Fresh(ids, seen)[j]
    ensures IsSubsequence(Fresh(ids, seen), ids)
  {
    if ids != [] {
      var x := ids[0];
      assert ids == [x] + ids[1..];
      if x in seen {
        FreshIsNewIds(ids[1..], seen);
        SubsequenceOfTail(Fresh(ids[1..], seen), ids);
      } else {
        var t := Fresh(ids[1..], seen + [x]);
        FreshIsNewIds(ids[1..], seen + [x]);
        var r := [x] + t;
        assert r == Fresh(ids, seen);
        assert r[1..] == t;
        assert x in seen + [x];
        assert x !in t;
        forall i, j | 0 <= i < j < |r| ensures r[i] != r[j] {
          if i > 0 { assert r[i] == t[i - 1]; }
          assert r[j] == t[j - 1];
        }
      }
    }
  }

  /** When every listed id is already processed, nothing is left to do. */
  lemma {:induction false} FreshOfProcessed(ids: seq<SubmissionId>, seen: seq<SubmissionId>)
    requires forall i :: 0 <= i < |ids| ==> ids[i] in seen
    ensures Fresh(ids, seen) == []
  {
    if ids != [] {
      FreshOfProcessed(ids[1..], seen);
    }
  }

  /**
   * Resuming: once the first `n` of the remaining ids are processed, what
   * remains is the rest of them, in the same order.
   */
  lemma {:induction false} FreshAfterPrefix(ids: seq<SubmissionId>, seen: seq<SubmissionId>, n: nat)
    requires n <= |Fresh(ids, seen)|
    ensures Fresh(ids, seen + Fresh(ids, seen)[..n]) == Fresh(ids, seen)[n..]
  {
    if n == 0 {
      assert seen + Fresh(ids, seen)[..0] == seen;
    } else if ids != [] {
      var x := ids[0];
      var f := Fresh(ids, seen);
      if x in seen {
        FreshAfterPrefix(ids[1..], seen, n);
      } else {
        var t := Fresh(ids[1..], seen + [x]);
        assert f == [x] + t;
        FreshAfterPrefix(ids[1..], seen + [x], n - 1);
        assert seen + f[..n] == (seen + [x]) + t[..n - 1];
        assert x in seen + f[..n];
        assert f[n..] == t[n - 1..];
      }
    }
  }

  /** What an int key becomes when the ledger is written as JSON: its decimal text. */
  function JsonKey(k: Atom): Atom
  {
    match k
    case AInt(i) => AStr(IntToStr(i))
    case AStr(_) => k
  }

  function JsonKeySet(userlines: Userlines): set<Atom>
  {
    set k | k in userlines :: JsonKey(k)
  }

  lemma JsonKeyOrigin(userlines: Userlines, k: Atom)
    requires k in JsonKeySet(userlines) && k !in userlines
    ensures k.AStr? && ParseInt(k.s).Some? && AInt(ParseInt(k.s).value) in userlines
  {
    var a :| a in userlines && JsonKey(a) == k;
    ParseIntOfIntToStr(a.i);
  }

  /**
   * The ledger after `save_state` and a reload (lines 188-194, 386-388):
   * every int key is replaced by its decimal text; entries are unchanged.
   * When both an int key and its text are present, JSON keeps one of them;
   * here the string-keyed entry is the one kept.
   */
  function JsonKeys(userlines: Userlines): (r: Userlines)
    ensures forall k :: k in r ==> k.AStr?
    ensures forall k :: k in userlines ==> JsonKey(k) in r
    ensures forall k :: k in userlines && k.AStr? ==> k in r && r[k] == userlines[k]
    ensures forall k :: k in userlines && k.AInt? && JsonKey(k) !in userlines ==> r[JsonKey(k)] == userlines[k]
  {
    assert forall k :: k in userlines && k.AStr? ==> JsonKey(k) == k;
    forall k | k in userlines && k.AInt? {
      ParseIntOfIntToStr(k.i);
    }
    map k | k in JsonKeySet(userlines) ::
      if k in userlines then userlines[k]
      else
        JsonKeyOrigin(userlines, k);
        userlines[AInt(ParseInt(k.s).value)]
  }

  /** A reload keeps every entry whole, so a well-kept ledger stays well kept. */
  lemma JsonKeysKeepsLedgerValid(userlines: Userlines)
    requires LedgerValid(userlines)
    ensures LedgerValid(JsonKeys(userlines))
  {
    var r := JsonKeys(userlines);
    forall k | k in r ensures EntryValid(r[k]) {
      if k !in userlines {
        JsonKeyOrigin(userlines, k);
      }
    }
  }

  /** In a well-kept ledger every version key is text, as `str(version)` writes it. */
  lemma LedgerValidHasTextVersionKeys(userlines: Userlines)
    requires LedgerValid(userlines)
    ensures TextVersionKeys(userlines)
  {
    forall k, f | k in userlines && f in userlines[k].files ensures f.AStr? {
      assert f in NumberKeysBelow(userlines[k].next);
    }
  }

  /** A ledger keyed by strings only comes back from JSON unchanged, so saving is idempotent. */
  lemma JsonKeysOfTextKeys(userlines: Userlines)
    requires forall k :: k in userlines ==> k.AStr?
    ensures JsonKeys(userlines) == userlines
  {
    assert JsonKeySet(userlines) == userlines.Keys by {
      forall k | k in userlines ensures JsonKey(k) == k { }
    }
  }

  lemma JsonKeysIdempotent(userlines: Userlines)
    ensures JsonKeys(JsonKeys(userlines)) == JsonKeys(userlines)
  {
    JsonKeysOfTextKeys(JsonKeys(userlines));
  }

  /**
   * As written, a submitter recorded under an int key is unknown to the
   * reloaded ledger: its next submission gets version 1 again, so the base
   * name of its first version is produced a second time.
   */
  lemma ReloadForgetsIntKeys(userlines: Userlines, espId: int)
    requires AInt(espId) in userlines
    ensures AInt(espId) !in JsonKeys(userlines)
    ensures VersionFor(JsonKeys(userlines), AInt(espId)) == 1
  {
  }

  /**
   * Keyed by the text of the ESP id instead, the ledger keeps only string
   * keys through every update, so a reload between two submissions changes
   * no version the next submission gets.
   */
  lemma TextKeyedLedgerSurvivesReload(userlines: Userlines, espId: int, name: string, other: int)
    requires forall k :: k in userlines ==> k.AStr?
    ensures var key := NumberKey(TextKeys, espId);
            var u := Record(Bump(userlines, key), key, VersionFor(userlines, key), name);
            && (forall k :: k in u ==> k.AStr?)
            && JsonKeys(u) == u
            && VersionFor(JsonKeys(u), NumberKey(TextKeys, other)) == VersionFor(u, NumberKey(TextKeys, other))
  {
    var key := NumberKey(TextKeys, espId);
    var u := Record(Bump(userlines, key), key, VersionFor(userlines, key), name);
    JsonKeysOfTextKeys(u);
  }
}
