/** The parts of `unzip -o -b -j <jar> "<filter>" -d <dir>` and of directory listing that
    the crypto helper relies on: which archive entries a filter selects, which file names
    they land under once their paths are junked, and which names a listing shows. */
module Archive {
  import opened Outcomes
  import opened CryptoFailures

  /** A file's content: opaque bytes, or a zip archive (a JAR) with its entries in order. */
  datatype Blob = Data(bytes: string) | Jar(entries: seq<Entry>)

  /** One archive member: its path inside the archive and its content. */
  datatype Entry = Entry(path: string, content: Blob)

  /** A flat directory: file name to content. */
  type Dir = map<string, Blob>

  /** unzip's wildcard match of a whole entry path; `*` matches any run of characters,
      `/` included. */
  predicate GlobMatch(pat: string, s: string)
    decreases |pat| + |s|
  {
    if pat == [] then s == []
    else if pat[0] == '*' then GlobMatch(pat[1..], s) || (s != [] && GlobMatch(pat, s[1..]))
    else s != [] && s[0] == pat[0] && GlobMatch(pat[1..], s[1..])
  }

  /** A pattern without `*` matches itself and nothing else. */
  lemma {:induction false} GlobLiteral(q: string, s: string)
    requires '*' !in q
    ensures GlobMatch(q, s) <==> s == q
  {
    if q != [] && s != [] {
      GlobLiteral(q[1..], s[1..]);
      assert s == [s[0]] + s[1..] && q == [q[0]] + q[1..];
    }
  }

  /** A literal head of a pattern must be a prefix of the path. */
  lemma {:induction false} GlobLiteralHead(p: string, rest: string, s: string)
    requires '*' !in p
    ensures GlobMatch(p + rest, s) <==> p <= s && GlobMatch(rest, s[|p|..])
  {
    if p == [] {
      assert p + rest == rest;
    } else {
      assert (p + rest)[0] == p[0] && (p + rest)[1..] == p[1..] + rest;
      if s != [] {
        GlobLiteralHead(p[1..], rest, s[1..]);
        if |p| <= |s| {
          assert s[1..][|p| - 1..] == s[|p|..];
        }
        assert p <= s <==> s[0] == p[0] && p[1..] <= s[1..];
      }
    }
  }

  /** `*` followed by a literal tail matches exactly the paths ending in that tail. */
  lemma {:induction false} GlobStarTail(q: string, s: string)
    requires '*' !in q
    ensures GlobMatch("*" + q, s) <==> |q| <= |s| && s[|s| - |q|..] == q
    decreases |s|
  {
    var pat := "*" + q;
    assert pat[0] == '*' && pat[1..] == q;
    GlobLiteral(q, s);
    if s != [] {
      GlobStarTail(q, s[1..]);
      assert |q| < |s| ==> s[1..][|s| - 1 - |q|..] == s[|s| - |q|..];
    }
  }

  /** A filter `prefix*suffix` selects the paths that start with the prefix and end with
      the suffix, without the two overlapping. */
  lemma {:induction false} GlobPrefixStarSuffix(p: string, q: string, s: string)
    requires '*' !in p && '*' !in q
    ensures GlobMatch(p + "*" + q, s) <==> |p| + |q| <= |s| && p <= s && s[|s| - |q|..] == q
  {
    assert p + "*" + q == p + ("*" + q);
    GlobLiteralHead(p, "*" + q, s);
    if p <= s {
      GlobStarTail(q, s[|p|..]);
      assert |q| <= |s| - |p| ==> s[|p|..][|s| - |p| - |q|..] == s[|s| - |q|..];
    }
  }

  /** What `-j` keeps of an entry path: the text after its last `/`. */
  function Basename(path: string): (b: string)
    ensures |b| <= |path| && path[|path| - |b|..] == b
    ensures '/' !in b
    ensures |b| < |path| ==> path[|path| - |b| - 1] == '/'
  {
    if path == [] || path[|path| - 1] == '/' then []
    else
      var init := path[..|path| - 1];
      var b := Basename(init) + [path[|path| - 1]];
      assert path[|path| - |b|..] == init[|init| - (|b| - 1)..] + [path[|path| - 1]];
      b
  }

  /** Whether unzip writes this entry: its path matches the filter and it is not a directory
      entry (whose junked name is empty). */
  predicate Extracts(filter: string, e: Entry) {
    GlobMatch(filter, e.path) && Basename(e.path) != []
  }

  /** The file names an extraction creates or overwrites, entry by entry. */
  function ExtractedNames(entries: seq<Entry>, filter: string): set<string> {
    if entries == [] then {} else EntryName(filter, entries[0]) + ExtractedNames(entries[1..], filter)
  }

  /** The file name one entry creates: its junked name if unzip writes it, none otherwise. */
  function EntryName(filter: string, e: Entry): set<string> {
    if Extracts(filter, e) then {Basename(e.path)} else {}
  }

  lemma {:induction false} ExtractedNameListed(entries: seq<Entry>, filter: string, i: nat)
    requires i < |entries| && Extracts(filter, entries[i])
    ensures Basename(entries[i].path) in ExtractedNames(entries, filter)
  {
    EntryNameIncluded(entries, filter, i);
  }

  /** Each entry's file name, if any, is among the names of the whole archive. */
  lemma {:induction false} EntryNameIncluded(entries: seq<Entry>, filter: string, i: nat)
    requires i < |entries|
    ensures EntryName(filter, entries[i]) <= ExtractedNames(entries, filter)
  {
    if i > 0 {
      assert entries[1..][i - 1] == entries[i];
      EntryNameIncluded(entries[1..], filter, i - 1);
    }
  }

  lemma {:induction false} NameNotExtracted(entries: seq<Entry>, filter: string, n: string)
    requires forall j :: 0 <= j < |entries| && Extracts(filter, entries[j]) ==> Basename(entries[j].path) != n
    ensures n !in ExtractedNames(entries, filter)
  {
    if entries != [] {
      forall j | 0 <= j < |entries[1..]| && Extracts(filter, entries[1..][j])
        ensures Basename(entries[1..][j].path) != n
      {
        assert entries[1..][j] == entries[j + 1];
      }
      NameNotExtracted(entries[1..], filter, n);
    }
  }

  /** `-o -j`: every selected entry is written under its junked name, in archive order, each
      overwriting what was there. */
  function ExtractEntries(entries: seq<Entry>, filter: string, dst: Dir): (r: Dir)
    ensures dst.Keys <= r.Keys
    ensures forall n :: n in dst && n !in ExtractedNames(entries, filter) ==> n in r && r[n] == dst[n]
  {
    if entries == [] then dst
    else
      var e := entries[0];
      ExtractEntries(entries[1..], filter, if Extracts(filter, e) then dst[Basename(e.path) := e.content] else dst)
  }

  /** Extraction creates exactly the extracted names and removes nothing. */
  lemma {:induction false} ExtractEntriesKeys(entries: seq<Entry>, filter: string, dst: Dir)
    ensures ExtractEntries(entries, filter, dst).Keys == dst.Keys + ExtractedNames(entries, filter)
  {
    if entries != [] {
      var e := entries[0];
      var next := if Extracts(filter, e) then dst[Basename(e.path) := e.content] else dst;
      ExtractEntriesKeys(entries[1..], filter, next);
    }
  }

  /** A file whose name no selected entry junks to keeps its content. */
  lemma {:induction false} ExtractEntriesKeepsOthers(entries: seq<Entry>, filter: string, dst: Dir, n: string)
    requires n in dst && n !in ExtractedNames(entries, filter)
    ensures n in ExtractEntries(entries, filter, dst) && ExtractEntries(entries, filter, dst)[n] == dst[n]
  {
    if entries != [] {
      var e := entries[0];
      var next := if Extracts(filter, e) then dst[Basename(e.path) := e.content] else dst;
      ExtractEntriesKeepsOthers(entries[1..], filter, next, n);
    }
  }

  /** The first entry's file survives when no later selected entry has its junked name. */
  lemma FirstEntryKept(entries: seq<Entry>, filter: string, dst: Dir)
    requires entries != [] && Extracts(filter, entries[0])
    requires forall j :: 0 < j < |entries| && Extracts(filter, entries[j])
                         ==> Basename(entries[j].path) != Basename(entries[0].path)
    ensures Basename(entries[0].path) in ExtractEntries(entries, filter, dst)
    ensures ExtractEntries(entries, filter, dst)[Basename(entries[0].path)] == entries[0].content
  {
    var e, tail := entries[0], entries[1..];
    var n := Basename(e.path);
    forall j | 0 <= j < |tail| && Extracts(filter, tail[j]) ensures Basename(tail[j].path) != n {
      assert tail[j] == entries[j + 1];
    }
    NameNotExtracted(tail, filter, n);
    ExtractEntriesKeepsOthers(tail, filter, dst[n := e.content], n);
  }

  /** When several selected entries share a junked name, the file holds the last one. */
  lemma {:induction false} LastExtractedEntryWins(entries: seq<Entry>, filter: string, dst: Dir, i: nat)
    requires i < |entries| && Extracts(filter, entries[i])
    requires forall j :: i < j < |entries| && Extracts(filter, entries[j])
                         ==> Basename(entries[j].path) != Basename(entries[i].path)
    ensures Basename(entries[i].path) in ExtractEntries(entries, filter, dst)
    ensures ExtractEntries(entries, filter, dst)[Basename(entries[i].path)] == entries[i].content
  {
    if i == 0 {
      FirstEntryKept(entries, filter, dst);
    } else {
      var e, tail := entries[0], entries[1..];
      var next := if Extracts(filter, e) then dst[Basename(e.path) := e.content] else dst;
      forall j | i - 1 < j < |tail| && Extracts(filter, tail[j])
        ensures Basename(tail[j].path) != Basename(tail[i - 1].path)
      {
        assert tail[j] == entries[j + 1];
      }
      LastExtractedEntryWins(tail, filter, next, i - 1);
      assert tail[i - 1] == entries[i];
    }
  }

  /** Whether some entry path matches the filter (unzip's exit status 11 otherwise). */
  predicate AnyMatch(entries: seq<Entry>, filter: string) {
    entries != [] && (GlobMatch(filter, entries[0].path) || AnyMatch(entries[1..], filter))
  }

  lemma {:induction false} AnyMatchIff(entries: seq<Entry>, filter: string)
    ensures AnyMatch(entries, filter) <==> exists i :: 0 <= i < |entries| && GlobMatch(filter, entries[i].path)
  {
    if entries != [] {
      var tail := entries[1..];
      AnyMatchIff(tail, filter);
      if AnyMatch(tail, filter) {
        var j :| 0 <= j < |tail| && GlobMatch(filter, tail[j].path);
        assert entries[j + 1] == tail[j];
      }
      if exists i :: 0 <= i < |entries| && GlobMatch(filter, entries[i].path) {
        var i :| 0 <= i < |entries| && GlobMatch(filter, entries[i].path);
        if i > 0 {
          assert tail[i - 1] == entries[i];
        }
      }
    }
  }

  /** `extract_jar`: a missing file, a file that is not an archive, or a filter that selects
      nothing makes unzip fail, and the helper stops the run. */
  function Unzip(archive: Option<Blob>, filter: string, dst: Dir): (r: Result<Dir, FatalError>)
    ensures r.Err? ==> r.error == ExtractFailed(filter)
    ensures r.Ok? ==> archive.Some? && archive.value.Jar? && dst.Keys <= r.value.Keys
  {
    match archive
    case None => Err(ExtractFailed(filter))
    case Some(Data(_)) => Err(ExtractFailed(filter))
    case Some(Jar(entries)) =>
      if AnyMatch(entries, filter) then Ok(ExtractEntries(entries, filter, dst))
      else Err(ExtractFailed(filter))
  }

  /** unzip fails exactly when there is no archive or no entry path matches the filter, and
      otherwise adds exactly the extracted names to the destination. */
  lemma UnzipOutcome(archive: Option<Blob>, filter: string, dst: Dir)
    ensures var r := Unzip(archive, filter, dst);
            && (r.Err? <==> archive.None? || archive.value.Data?
                            || !exists i :: 0 <= i < |archive.value.entries| && GlobMatch(filter, archive.value.entries[i].path))
            && (r.Err? ==> r.error == ExtractFailed(filter))
            && (r.Ok? ==> r.value.Keys == dst.Keys + ExtractedNames(archive.value.entries, filter))
  {
    if archive.Some? && archive.value.Jar? {
      AnyMatchIff(archive.value.entries, filter);
      ExtractEntriesKeys(archive.value.entries, filter, dst);
    }
  }

  /** An archive with an entry the filter extracts unpacks without error. */
  lemma {:induction false} UnzipWithMatch(archive: Option<Blob>, filter: string, dst: Dir, i: nat)
    requires archive.Some? && archive.value.Jar? && i < |archive.value.entries|
    requires Extracts(filter, archive.value.entries[i])
    ensures Unzip(archive, filter, dst).Ok?
    ensures Unzip(archive, filter, dst).value.Keys == dst.Keys + ExtractedNames(archive.value.entries, filter)
  {
    AnyMatchIff(archive.value.entries, filter);
    ExtractEntriesKeys(archive.value.entries, filter, dst);
  }

  predicate Hidden(name: string) {
    name != [] && name[0] == '.'
  }

  /** The names `Dir[File.join(dir, '*')]` lists: every name not starting with a dot. */
  function Visible(dir: Dir): (names: set<string>)
    ensures names <= dir.Keys
    ensures forall n :: n in dir && !Hidden(n) ==> n in names
    ensures forall n :: n in names ==> !Hidden(n)
  {
    set n | n in dir && !Hidden(n)
  }

  const GraniteCrypto := "com.adobe.granite.crypto"

  /** `/com\.adobe\.granite\.crypto.+/` matches somewhere in the name: the literal text
      followed by at least one character other than a line feed. */
  predicate GraniteMatch(name: string) {
    exists i :: 0 <= i < |name| && GraniteMatchAt(name, i)
  }

  predicate GraniteMatchAt(name: string, i: int) {
    0 <= i && i + |GraniteCrypto| < |name|
    && name[i..i + |GraniteCrypto|] == GraniteCrypto && name[i + |GraniteCrypto|] != '\n'
  }

  /** The names of `Dir.entries(dir)` the granite search keeps; `.` and `..` are too short
      to match. */
  function GraniteCandidates(dir: Dir): (names: set<string>)
    ensures names <= dir.Keys
    ensures forall n :: n in dir && GraniteMatch(n) ==> n in names
    ensures forall n :: n in names ==> GraniteMatch(n)
  {
    set n | n in dir && GraniteMatch(n)
  }
}
