/** The ingestion script: derive each record's README location, download the
    READMEs while counting successes and failures, and fill the shared
    citation map by running `parseCitations` over every record, once before
    and once after the downloads. */
module Pipeline {
  import opened Wrappers
  import opened Records
  import opened Patterns
  import opened Citations

  // ---------------------------------------------------------------------------
  // README locations

  const ReadmeBase: string := "https://raw.githubusercontent.com/kubernetes/enhancements/master/keps/"
  const ReadmeFile: string := "/README.md"

  /** The raw README location of a KEP, built from its SIG and its name. */
  function ReadmeUrl(owningSig: string, name: string): string {
    ReadmeBase + owningSig + "/" + name + ReadmeFile
  }

  /** The index of the first `/` of `s`, or `|s|` when there is none. */
  function FirstSlash(s: string): (i: nat)
    ensures i <= |s|
    decreases |s|
  {
    if s == [] || s[0] == '/' then 0 else 1 + FirstSlash(s[1..])
  }

  lemma {:induction false} FirstSlashAfter(a: string, rest: string)
    requires '/' !in a
    ensures FirstSlash(a + "/" + rest) == |a|
    decreases |a|
  {
    if a != [] {
      assert (a + "/" + rest)[1..] == a[1..] + "/" + rest;
      FirstSlashAfter(a[1..], rest);
    }
  }

  /** `p + sig + "/" + name + q`, regrouped around the SIG. */
  lemma {:induction false} Regroup(p: string, sig: string, name: string, q: string)
    ensures p + sig + "/" + name + q == p + (sig + "/" + (name + q))
  {
  }

  lemma {:induction false} CancelPrefix(p: string, x: string, y: string)
    requires p + x == p + y
    ensures x == y
  {
    assert x == (p + x)[|p|..];
    assert y == (p + y)[|p|..];
  }

  lemma {:induction false} CancelSuffix(x: string, y: string, q: string)
    requires x + q == y + q
    ensures x == y
  {
    assert |x| == |y|;
    assert x == (x + q)[..|x|];
    assert y == (y + q)[..|y|];
  }

  /** Splitting at the first `/` recovers both halves. */
  lemma {:induction false} SplitAtSlash(a: string, x: string, b: string, y: string)
    requires '/' !in a && '/' !in b
    requires a + "/" + x == b + "/" + y
    ensures a == b && x == y
  {
    FirstSlashAfter(a, x);
    FirstSlashAfter(b, y);
    assert a == (a + "/" + x)[..|a|];
    assert b == (b + "/" + y)[..|b|];
    assert x == (a + "/" + x)[|a| + 1..];
    assert y == (b + "/" + y)[|b| + 1..];
  }

  /** Two records whose SIGs hold no `/` share a README location only when
      they have the same SIG and the same name. */
  lemma ReadmeUrlInjective(sig1: string, name1: string, sig2: string, name2: string)
    requires '/' !in sig1 && '/' !in sig2
    requires ReadmeUrl(sig1, name1) == ReadmeUrl(sig2, name2)
    ensures sig1 == sig2 && name1 == name2
  {
    Regroup(ReadmeBase, sig1, name1, ReadmeFile);
    Regroup(ReadmeBase, sig2, name2, ReadmeFile);
    CancelPrefix(ReadmeBase, sig1 + "/" + (name1 + ReadmeFile), sig2 + "/" + (name2 + ReadmeFile));
    SplitAtSlash(sig1, name1 + ReadmeFile, sig2, name2 + ReadmeFile);
    CancelSuffix(name1, name2, ReadmeFile);
  }

  /** `construct_kep_readme_urls`: sets every record's `readmeUrl`, in place,
      and changes nothing else. */
  method ConstructReadmeUrls(data: array<Kep>)
    modifies data
    ensures forall i :: 0 <= i < data.Length ==>
              data[i] == old(data[i]).(readmeUrl := Some(ReadmeUrl(old(data[i]).owningSig, old(data[i]).name)))
  {
    for i := 0 to data.Length
      invariant forall j :: 0 <= j < i ==>
                  data[j] == old(data[j]).(readmeUrl := Some(ReadmeUrl(old(data[j]).owningSig, old(data[j]).name)))
      invariant forall j :: i <= j < data.Length ==> data[j] == old(data[j])
    {
      data[i] := data[i].(readmeUrl := Some(ReadmeUrl(data[i].owningSig, data[i].name)));
    }
  }

  // ---------------------------------------------------------------------------
  // Downloads

  /** What happened to one README download. */
  datatype FetchOutcome =
    | Fetched(body: string)                       // `response.ok`; the body was written to disk
    | HttpFailure(status: int, statusText: string) // `!response.ok`
    | Thrown(message: string)                     // the fetch, the body read, or a `writeFile` that
                                                  // rejected before opening the file, threw; nothing was written
    | WriteFailed(partial: string)                // `writeFile` opened the file and then rejected;
                                                  // `partial` is what reached the disk

  /** The outcomes that leave `<name>.md` changed. */
  predicate Writes(o: FetchOutcome) {
    o.Fetched? || o.WriteFailed?
  }

  /** What such an outcome leaves in the file. */
  function WrittenText(o: FetchOutcome): string
    requires Writes(o)
  {
    if o.Fetched? then o.body else o.partial
  }

  /** The number of downloads that succeeded. */
  function Successes(outcomes: seq<FetchOutcome>): nat {
    if outcomes == [] then 0
    else Successes(outcomes[..|outcomes| - 1]) + (if outcomes[|outcomes| - 1].Fetched? then 1 else 0)
  }

  /** The number of downloads that failed, whether by status or by exception. */
  function Failures(outcomes: seq<FetchOutcome>): nat {
    if outcomes == [] then 0
    else Failures(outcomes[..|outcomes| - 1]) + (if outcomes[|outcomes| - 1].Fetched? then 0 else 1)
  }

  lemma {:induction false} SuccessesPlusFailures(outcomes: seq<FetchOutcome>)
    ensures Successes(outcomes) + Failures(outcomes) == |outcomes|
  {
    if outcomes != [] {
      SuccessesPlusFailures(outcomes[..|outcomes| - 1]);
    }
  }

  /** The README directory after the downloads: `<name>.md` holds the body of
      each successful download, or what a failed write left, the last one
      when names repeat. */
  function Downloaded(files: map<string, string>, data: seq<Kep>, outcomes: seq<FetchOutcome>): map<string, string>
    requires |outcomes| == |data|
  {
    if data == [] then files
    else
      var n := |data| - 1;
      var before := Downloaded(files, data[..n], outcomes[..n]);
      if Writes(outcomes[n]) then before[data[n].name := WrittenText(outcomes[n])] else before
  }

  /** The loop of `downloadReadmes`: one outcome per record; a non-ok
      status, an exception and a rejected write all count against
      `failCount`, and only a rejected write (or a success) changes a file. */
  method DownloadReadmes(data: seq<Kep>, outcomes: seq<FetchOutcome>, files: map<string, string>)
    returns (written: map<string, string>, successCount: nat, failCount: nat)
    requires |outcomes| == |data|
    ensures successCount == Successes(outcomes)
    ensures failCount == Failures(outcomes)
    ensures successCount + failCount == |data|
    ensures written == Downloaded(files, data, outcomes)
  {
    written, successCount, failCount := files, 0, 0;
    for i := 0 to |data|
      invariant successCount == Successes(outcomes[..i])
      invariant failCount == Failures(outcomes[..i])
      invariant successCount + failCount == i
      invariant written == Downloaded(files, data[..i], outcomes[..i])
    {
      assert outcomes[..i + 1][..i] == outcomes[..i];
      assert data[..i + 1][..i] == data[..i];
      match outcomes[i]
      case HttpFailure(_, _) =>
        failCount := failCount + 1;
      case Thrown(_) =>
        failCount := failCount + 1;
      case WriteFailed(partial) =>
        written := written[data[i].name := partial];
        failCount := failCount + 1;
      case Fetched(body) =>
        written := written[data[i].name := body];
        successCount := successCount + 1;
    }
    assert outcomes[..|data|] == outcomes;
    assert data[..|data|] == data;
  }

  /** A file exists after the downloads when it existed before or some
      download of that name wrote it; it holds what the last such download
      wrote, and is untouched when there is none. Every successful download
      writes its body; a failed one writes only when `writeFile` itself
      rejected after opening the file. */
  lemma {:induction false} DownloadedFiles(files: map<string, string>, data: seq<Kep>, outcomes: seq<FetchOutcome>, name: string)
    requires |outcomes| == |data|
    ensures name in Downloaded(files, data, outcomes) <==>
              name in files || exists i :: 0 <= i < |data| && Writes(outcomes[i]) && data[i].name == name
    ensures (forall i :: 0 <= i < |data| && Writes(outcomes[i]) ==> data[i].name != name) && name in files ==>
              Downloaded(files, data, outcomes)[name] == files[name]
    ensures forall i :: (0 <= i < |data| && Writes(outcomes[i]) && data[i].name == name &&
                         forall j :: i < j < |data| && Writes(outcomes[j]) ==> data[j].name != name) ==>
              Downloaded(files, data, outcomes)[name] == WrittenText(outcomes[i])
  {
    if data != [] {
      var n := |data| - 1;
      DownloadedFiles(files, data[..n], outcomes[..n], name);
      forall i | 0 <= i < n ensures data[..n][i] == data[i] && outcomes[..n][i] == outcomes[i] { }
    }
  }

  // ---------------------------------------------------------------------------
  // The citation map

  /** What `getKEPReadme` gives for one record, or that the `try` block of a
      driver loop threw before `parseCitations` wrote anything. */
  datatype Readme =
    | Found(text: string)  // the file `<name>.md` was read
    | NotFound             // reading failed; `getKEPReadme` returns ""
    | Throws               // an exception inside the driver's `try`, logged and skipped

  /** The text handed to `parseCitations`. */
  function Content(r: Readme): string
    requires !r.Throws?
  {
    if r.Found? then r.text else ""
  }

  /** `getKEPReadme` over a README directory: a missing file reads as "". */
  function ReadKepReadme(files: map<string, string>, kep: Kep): Readme {
    if kep.name in files then Found(files[kep.name]) else NotFound
  }

  /** The readmes the driver reads for every record from one directory. */
  function ReadAll(files: map<string, string>, data: seq<Kep>): (rs: seq<Readme>)
    ensures |rs| == |data|
    ensures forall i :: 0 <= i < |data| ==> !rs[i].Throws?
  {
    seq(|data|, i requires 0 <= i < |data| => ReadKepReadme(files, data[i]))
  }

  /** The key `citationMap[data[kep].kepNumber]` writes: the number itself,
      or "undefined" for a record without one. Passing that string as the
      parent to delete is the same as passing `undefined`, which no capture
      equals (see `NonNumeralParentRemovesNothing`). */
  function CitationKey(kep: Kep): string {
    match kep.kepNumber
    case Some(n) => n
    case None => "undefined"
  }

  /** An entry as `parseCitations` leaves it: no self-citation, no
      duplicates, only digit strings. */
  ghost predicate WellFormedEntry(key: string, entry: seq<string>) {
    key !in entry && NoDuplicates(entry) && forall x :: x in entry ==> IsNumeral(x)
  }

  /** Every entry of the map is well formed for its key. */
  ghost predicate ValidMap(m: map<string, seq<string>>) {
    forall key :: key in m ==> WellFormedEntry(key, m[key])
  }

  /** Storing the entry `parseCitations` computes keeps the map well formed. */
  lemma StoreEntryKeepsValid(m: map<string, seq<string>>, markdown: string, parent: string)
    requires ValidMap(m)
    ensures ValidMap(m[parent := Entry(markdown, parent)])
  {
    EntryWellFormed(markdown, parent);
  }

  /** One pass of a driver loop over the map: every record whose `try` block
      did not throw overwrites its key with the entry of its README. */
  function ParsePass(m: map<string, seq<string>>, data: seq<Kep>, readmes: seq<Readme>): map<string, seq<string>>
    requires |readmes| == |data|
    decreases |data|
  {
    if data == [] then m
    else
      var next := if readmes[0].Throws? then m
                  else m[CitationKey(data[0]) := Entry(Content(readmes[0]), CitationKey(data[0]))];
      ParsePass(next, data[1..], readmes[1..])
  }

  /** `markdown.matchAll(regex)` and the `for...of` loop over it: adds the
      capture of every match, in text order, to the working set. A capture
      is added when it is non-empty, which every capture of these regexes
      is. */
  method AddMatches(citations: seq<string>, regex: Pattern, markdown: string) returns (r: seq<string>)
    ensures r == AddAll(citations, Captures(regex, markdown))
  {
    var matches := Captures(regex, markdown);
    CapturesAreNumerals(regex, markdown);
    r := citations;
    for j := 0 to |matches|
      invariant r == AddAll(citations, matches[..j])
    {
      var kepNumber := matches[j];
      assert kepNumber in matches;
      AddStep(citations, matches, j);
      if |kepNumber| > 0 {
        r := SetAdd(r, kepNumber);
      }
    }
    assert matches[..|matches|] == matches;
  }

  lemma AddStep(xs: seq<string>, ms: seq<string>, j: nat)
    requires j < |ms|
    ensures AddAll(xs, ms[..j + 1]) == SetAdd(AddAll(xs, ms[..j]), ms[j])
  {
    assert ms[..j + 1] == ms[..j] + [ms[j]];
    AddOne(xs, ms[..j], ms[j]);
  }

  /** Adding one more element is one more `SetAdd`. */
  lemma AddOne(xs: seq<string>, ys: seq<string>, y: string)
    ensures AddAll(xs, ys + [y]) == SetAdd(AddAll(xs, ys), y)
  {
    AddAllAppend(xs, ys, [y]);
    AddAllCons(AddAll(xs, ys), y, []);
  }

  /** One step of `kepRegexes.forEach`: add the captures of `regex`, then
      delete the parent. */
  method ApplyRegex(citations: seq<string>, regex: Pattern, markdown: string, parent: string) returns (r: seq<string>)
    ensures r == SetDelete(AddAll(citations, Captures(regex, markdown)), parent)
  {
    r := AddMatches(citations, regex, markdown);
    r := SetDelete(r, parent);
  }

  lemma OverwriteTwice(m: map<string, seq<string>>, key: string, a: seq<string>, b: seq<string>)
    ensures m[key := a][key := b] == m[key := b]
  {
  }

  /** The module-level `citationMap` object that the driver loops fill. */
  class CitationMap {
    var entries: map<string, seq<string>>

    ghost predicate Valid()
      reads this
    {
      ValidMap(entries)
    }

    constructor ()
      ensures Valid() && entries == map[]
    {
      entries := map[];
    }

    /** `parseCitations(markdown, parent)`: empty content stores `[]`;
        otherwise each regex in turn adds its captures to the working set,
        the parent is deleted and the set is stored under `parent`. Only that
        key changes. */
    method ParseCitations(markdown: string, parent: string)
      requires Valid()
      modifies this
      ensures Valid()
      ensures entries == old(entries)[parent := Entry(markdown, parent)]
    {
      ghost var before := entries;
      if |markdown| == 0 {
        entries := entries[parent := []];
      } else {
        var citations: seq<string> := [];
        var k := 0;
        while k < |KepRegexes|
          invariant k <= |KepRegexes|
          invariant citations == Accumulated(markdown, parent, k)
          invariant k == 0 ==> entries == before
          invariant k > 0 ==> entries == before[parent := citations]
        {
          ghost var prev := citations;
          citations := ApplyRegex(citations, KepRegexes[k], markdown, parent);
          if k > 0 {
            OverwriteTwice(before, parent, prev, citations);
          }
          entries := entries[parent := citations];
          k := k + 1;
        }
        assert citations == Entry(markdown, parent);
      }
      assert entries == before[parent := Entry(markdown, parent)];
      StoreEntryKeepsValid(before, markdown, parent);
    }

    /** A driver loop: `parseCitations(getKEPReadme(kep), kep.kepNumber)` for
        every record in order, inside a `try` whose exceptions are logged
        and skipped. */
    method ParseAll(data: seq<Kep>, readmes: seq<Readme>)
      requires Valid()
      requires |readmes| == |data|
      modifies this
      ensures Valid()
      ensures entries == ParsePass(old(entries), data, readmes)
    {
      var i := 0;
      while i < |data|
        invariant i <= |data|
        invariant Valid()
        invariant ParsePass(entries, data[i..], readmes[i..]) == ParsePass(old(entries), data, readmes)
      {
        assert data[i..][0] == data[i] && data[i..][1..] == data[i + 1..];
        assert readmes[i..][0] == readmes[i] && readmes[i..][1..] == readmes[i + 1..];
        if !readmes[i].Throws? {
          ParseCitations(Content(readmes[i]), CitationKey(data[i]));
        }
        i := i + 1;
      }
    }
  }

  /** A pass overwrites: its result is the old map overridden by what the
      same pass writes into an empty map. */
  lemma {:induction false} ParsePassOverrides(m: map<string, seq<string>>, data: seq<Kep>, readmes: seq<Readme>)
    requires |readmes| == |data|
    ensures ParsePass(m, data, readmes) == m + ParsePass(map[], data, readmes)
    decreases |data|
  {
    if data != [] {
      var key := CitationKey(data[0]);
      var rest, restReadmes := data[1..], readmes[1..];
      if readmes[0].Throws? {
        ParsePassOverrides(m, rest, restReadmes);
        ParsePassOverrides(map[], rest, restReadmes);
      } else {
        var e := Entry(Content(readmes[0]), key);
        ParsePassOverrides(m[key := e], rest, restReadmes);
        ParsePassOverrides(map[key := e], rest, restReadmes);
        UpdateThenUnion(m, key, e, ParsePass(map[], rest, restReadmes));
      }
    }
  }

  /** Writing a key and then overlaying a map is overlaying the write and
      the map together. */
  lemma UpdateThenUnion<K, V>(m: map<K, V>, key: K, e: V, w: map<K, V>)
    ensures m[key := e] + w == m + (map[][key := e] + w)
  {
  }

  /** Running the same pass twice over the same contents gives the map one
      pass gives: the last write wins and it writes the same entries. */
  lemma ParsePassIdempotent(m: map<string, seq<string>>, data: seq<Kep>, readmes: seq<Readme>)
    requires |readmes| == |data|
    ensures ParsePass(ParsePass(m, data, readmes), data, readmes) == ParsePass(m, data, readmes)
  {
    ParsePassOverrides(m, data, readmes);
    ParsePassOverrides(ParsePass(m, data, readmes), data, readmes);
    var w := ParsePass(map[], data, readmes);
    assert (m + w) + w == m + w;
  }

  /** Some record from index `from` on writes `key`. */
  ghost predicate WrittenFrom(data: seq<Kep>, readmes: seq<Readme>, key: string, from: nat)
    requires |readmes| == |data|
  {
    exists i :: from <= i < |data| && !readmes[i].Throws? && CitationKey(data[i]) == key
  }

  /** A key is present after a pass exactly when it was before or some
      record with that key did not throw. */
  lemma {:induction false} ParsePassKeys(m: map<string, seq<string>>, data: seq<Kep>, readmes: seq<Readme>, key: string)
    requires |readmes| == |data|
    ensures key in ParsePass(m, data, readmes) <==> key in m || WrittenFrom(data, readmes, key, 0)
    decreases |data|
  {
    if data != [] {
      var next := if readmes[0].Throws? then m
                  else m[CitationKey(data[0]) := Entry(Content(readmes[0]), CitationKey(data[0]))];
      ParsePassKeys(next, data[1..], readmes[1..], key);
      if WrittenFrom(data[1..], readmes[1..], key, 0) {
        var i :| 0 <= i < |data| - 1 && !readmes[1..][i].Throws? && CitationKey(data[1..][i]) == key;
        assert !readmes[i + 1].Throws? && CitationKey(data[i + 1]) == key;
      }
      if WrittenFrom(data, readmes, key, 1) {
        var i :| 1 <= i < |data| && !readmes[i].Throws? && CitationKey(data[i]) == key;
        assert data[1..][i - 1] == data[i] && readmes[1..][i - 1] == readmes[i];
      }
    }
  }

  /** A key no record writes keeps the value it had. */
  lemma {:induction false} ParsePassUntouched(m: map<string, seq<string>>, data: seq<Kep>, readmes: seq<Readme>, key: string)
    requires |readmes| == |data|
    requires key in m
    requires forall i :: 0 <= i < |data| && !readmes[i].Throws? ==> CitationKey(data[i]) != key
    ensures key in ParsePass(m, data, readmes) && ParsePass(m, data, readmes)[key] == m[key]
    decreases |data|
  {
    if data != [] {
      var next := if readmes[0].Throws? then m
                  else m[CitationKey(data[0]) := Entry(Content(readmes[0]), CitationKey(data[0]))];
      assert key in next && next[key] == m[key];
      forall i | 0 <= i < |data| - 1 && !readmes[1..][i].Throws? ensures CitationKey(data[1..][i]) != key {
        assert readmes[1..][i] == readmes[i + 1] && data[1..][i] == data[i + 1];
      }
      ParsePassUntouched(next, data[1..], readmes[1..], key);
    }
  }

  /** A key holds the entry of the last record that wrote it. */
  lemma {:induction false} ParsePassLastWriter(m: map<string, seq<string>>, data: seq<Kep>, readmes: seq<Readme>, i: nat)
    requires |readmes| == |data|
    requires i < |data| && !readmes[i].Throws?
    requires forall j :: i < j < |data| && !readmes[j].Throws? ==> CitationKey(data[j]) != CitationKey(data[i])
    ensures CitationKey(data[i]) in ParsePass(m, data, readmes)
    ensures ParsePass(m, data, readmes)[CitationKey(data[i])] == Entry(Content(readmes[i]), CitationKey(data[i]))
    decreases |data|
  {
    var key := CitationKey(data[i]);
    var next := if readmes[0].Throws? then m
                else m[CitationKey(data[0]) := Entry(Content(readmes[0]), CitationKey(data[0]))];
    if i == 0 {
      forall j | 0 <= j < |data| - 1 && !readmes[1..][j].Throws? ensures CitationKey(data[1..][j]) != key {
        assert readmes[1..][j] == readmes[j + 1] && data[1..][j] == data[j + 1];
      }
      ParsePassUntouched(next, data[1..], readmes[1..], key);
    } else {
      forall j | i - 1 < j < |data| - 1 && !readmes[1..][j].Throws? ensures CitationKey(data[1..][j]) != key {
        assert readmes[1..][j] == readmes[j + 1] && data[1..][j] == data[j + 1];
      }
      assert data[1..][i - 1] == data[i] && readmes[1..][i - 1] == readmes[i];
      ParsePassLastWriter(next, data[1..], readmes[1..], i - 1);
    }
  }

  /** When no record of the second pass throws, what the first pass wrote
      does not show in the final map. */
  lemma SecondPassDecides(m: map<string, seq<string>>, data: seq<Kep>, first: seq<Readme>, second: seq<Readme>)
    requires |first| == |data| && |second| == |data|
    requires forall i :: 0 <= i < |data| ==> !second[i].Throws?
    ensures ParsePass(ParsePass(m, data, first), data, second) == ParsePass(m, data, second)
  {
    var w1 := ParsePass(map[], data, first);
    var w2 := ParsePass(map[], data, second);
    ParsePassOverrides(m, data, first);
    ParsePassOverrides(m + w1, data, second);
    ParsePassOverrides(m, data, second);
    forall key | key in w1 ensures key in w2 {
      ParsePassKeys(map[], data, first, key);
      ParsePassKeys(map[], data, second, key);
      var i :| 0 <= i < |data| && !first[i].Throws? && CitationKey(data[i]) == key;
      assert !second[i].Throws?;
    }
    UnionAbsorbs(m, w1, w2);
  }

  /** Writes shadowed by a later map that covers their keys leave no trace. */
  lemma UnionAbsorbs(m: map<string, seq<string>>, w1: map<string, seq<string>>, w2: map<string, seq<string>>)
    requires w1.Keys <= w2.Keys
    ensures (m + w1) + w2 == m + w2
  {
  }

  /** The whole script over its inputs: the records, the README directory as
      a previous run left it, and the outcome of every download. The first
      driver loop reads the old directory, the second the new one, and the
      map it leaves is what `generateMapData` serialises. */
  method RunIngestion(data: array<Kep>, previousFiles: map<string, string>, outcomes: seq<FetchOutcome>)
    returns (citationMap: CitationMap, files: map<string, string>, successCount: nat, failCount: nat)
    requires |outcomes| == data.Length
    modifies data
    ensures fresh(citationMap) && citationMap.Valid()
    ensures forall i :: 0 <= i < data.Length ==>
              data[i] == old(data[i]).(readmeUrl := Some(ReadmeUrl(old(data[i]).owningSig, old(data[i]).name)))
    ensures files == Downloaded(previousFiles, data[..], outcomes)
    ensures successCount + failCount == data.Length
    ensures citationMap.entries == ParsePass(map[], data[..], ReadAll(files, data[..]))
  {
    ConstructReadmeUrls(data);
    citationMap := new CitationMap();
    var records := data[..];
    var before := ReadAll(previousFiles, records);
    citationMap.ParseAll(records, before);
    files, successCount, failCount := DownloadReadmes(records, outcomes, previousFiles);
    var after := ReadAll(files, records);
    citationMap.ParseAll(records, after);
    SecondPassDecides(map[], records, before, after);
  }

  /** After a run, every record has an entry under its key, and it is the
      entry of the README of the last record with that key. */
  lemma EveryRecordHasEntry(data: seq<Kep>, files: map<string, string>, i: nat)
    requires i < |data|
    requires forall j :: i < j < |data| ==> CitationKey(data[j]) != CitationKey(data[i])
    ensures CitationKey(data[i]) in ParsePass(map[], data, ReadAll(files, data))
    ensures ParsePass(map[], data, ReadAll(files, data))[CitationKey(data[i])] ==
              Entry(Content(ReadKepReadme(files, data[i])), CitationKey(data[i]))
  {
    ParsePassLastWriter(map[], data, ReadAll(files, data), i);
  }

  /** After a run every record has some entry under its key. */
  lemma EveryRecordHasKey(data: seq<Kep>, files: map<string, string>, i: nat)
    requires i < |data|
    ensures CitationKey(data[i]) in ParsePass(map[], data, ReadAll(files, data))
  {
    ParsePassKeys(map[], data, ReadAll(files, data), CitationKey(data[i]));
  }

  /** A record whose README is missing stores `[]`: `getKEPReadme` reads it
      as "" and `parseCitations` stores the empty entry. */
  lemma MissingReadmeStoresEmpty(data: seq<Kep>, files: map<string, string>, i: nat)
    requires i < |data| && data[i].name !in files
    requires forall j :: i < j < |data| ==> CitationKey(data[j]) != CitationKey(data[i])
    ensures CitationKey(data[i]) in ParsePass(map[], data, ReadAll(files, data))
    ensures ParsePass(map[], data, ReadAll(files, data))[CitationKey(data[i])] == []
  {
    EveryRecordHasEntry(data, files, i);
  }
}
