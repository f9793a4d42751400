/** The two readers of zapret-info registry dumps, `dump_to_ips.py` and
    `archive_to_ips.py`: the record splitter `handle_line` they share, the
    choice of input files and archive members, and the writer that prints
    each address once. The `ipaddress` parsers and `hosts()` are foreign and
    enter as parameters; so do `glob`, file reading and cp1251 decoding. */
module Blocklist {
  import opened Wrappers
  import opened Text
  import opened Dedup

  /** What `ipaddress.ip_address(entry)` makes of an entry. */
  datatype AddressParse<A> = AddressV4(address: A) | AddressV6 | NotAnAddress

  /** What `ipaddress.ip_network(entry)` makes of an entry; for an IPv4
      network, the addresses its `hosts()` yields. */
  datatype NetworkParse<A> = NetworkV4(hosts: seq<A>) | NetworkV6 | NotANetwork

  datatype Parsers<A> = Parsers(address: string -> AddressParse<A>, network: string -> NetworkParse<A>)

  /** The addresses one stripped entry contributes: an IPv4 address itself,
      an IPv6 address nothing, and otherwise the hosts of an IPv4 network;
      an entry neither parser accepts is skipped. */
  function EntryIps<A>(entry: string, p: Parsers<A>): seq<A> {
    match p.address(entry)
    case AddressV4(a) => [a]
    case AddressV6 => []
    case NotAnAddress =>
      match p.network(entry)
      case NetworkV4(hosts) => hosts
      case _ => []
  }

  /** An entry gives its IPv4 address, or, when it is no address, the
      hosts of its IPv4 network; anything else gives nothing. */
  lemma EntryIpsCases<A>(entry: string, p: Parsers<A>)
    ensures p.address(entry).AddressV4? ==> EntryIps(entry, p) == [p.address(entry).address]
    ensures p.address(entry).NotAnAddress? && p.network(entry).NetworkV4? ==>
      EntryIps(entry, p) == p.network(entry).hosts
    ensures EntryIps(entry, p) != [] ==>
      p.address(entry).AddressV4? || (p.address(entry).NotAnAddress? && p.network(entry).NetworkV4?)
  {
  }

  /** An address entry never reaches the network parser: the result is the
      same whatever that parser would say. */
  lemma AddressNotReparsed<A>(entry: string, p: Parsers<A>, other: string -> NetworkParse<A>)
    requires !p.address(entry).NotAnAddress?
    ensures EntryIps(entry, p) == EntryIps(entry, p.(network := other))
    ensures p.address(entry).AddressV6? ==> EntryIps(entry, p) == []
  {
  }

  /** The addresses of a list of raw entries, each stripped, in entry
      order. */
  function EntriesIps<A>(entries: seq<string>, p: Parsers<A>): seq<A> {
    if |entries| == 0 then []
    else EntriesIps(entries[..|entries| - 1], p) + EntryIps(Strip(entries[|entries| - 1]), p)
  }

  lemma {:induction false} EntriesIpsConcat<A>(a: seq<string>, b: seq<string>, p: Parsers<A>)
    ensures EntriesIps(a + b, p) == EntriesIps(a, p) + EntriesIps(b, p)
    decreases |b|
  {
    if |b| == 0 {
      assert a + b == a;
    } else {
      var init, last := b[..|b| - 1], EntryIps(Strip(b[|b| - 1]), p);
      assert (a + b)[..|a + b| - 1] == a + init;
      assert (a + b)[|a + b| - 1] == b[|b| - 1];
      assert EntriesIps(a + b, p) == EntriesIps(a + init, p) + last;
      assert EntriesIps(b, p) == EntriesIps(init, p) + last;
      EntriesIpsConcat(a, init, p);
      assert EntriesIps(a, p) + EntriesIps(init, p) + last == EntriesIps(a, p) + (EntriesIps(init, p) + last);
    }
  }

  /** An entry that contributes nothing leaves the other entries' results
      as they are. */
  lemma SkippedEntry<A>(a: seq<string>, e: string, b: seq<string>, p: Parsers<A>)
    requires EntryIps(Strip(e), p) == []
    ensures EntriesIps(a + [e] + b, p) == EntriesIps(a + b, p)
  {
    var ae := a + [e];
    EntriesIpsConcat(ae, b, p);
    assert ae[..|ae| - 1] == a && ae[|ae| - 1] == e;
    assert EntriesIps(ae, p) == EntriesIps(a, p);
    EntriesIpsConcat(a, b, p);
  }

  /** An address comes out of a list of entries exactly when one of the
      entries contributes it. */
  lemma {:induction false} EntriesIpsMembers<A>(entries: seq<string>, p: Parsers<A>, x: A)
    ensures x in EntriesIps(entries, p)
      <==> exists i :: 0 <= i < |entries| && x in EntryIps(Strip(entries[i]), p)
  {
    if |entries| > 0 {
      var n := |entries| - 1;
      var init := entries[..n];
      EntriesIpsMembers(init, p, x);
      assert EntriesIps(entries, p) == EntriesIps(init, p) + EntryIps(Strip(entries[n]), p);
      assert forall i :: 0 <= i < n ==> init[i] == entries[i];
    }
  }

  /** `handle_line`: nothing for a line without `;`; otherwise the text
      before the first `;`, split on `|`, each entry stripped and parsed. */
  function HandleLine<A>(line: string, p: Parsers<A>): (r: seq<A>)
    ensures ';' !in line ==> r == []
  {
    if ';' !in line then []
    else EntriesIps(RecordEntries(line), p)
  }

  /** The `|`-separated entries of the first field of a record. */
  function RecordEntries(line: string): seq<string>
    requires ';' in line
  {
    Split(BeforeFirst(line, ';'), '|')
  }

  lemma {:induction false} JoinAvoids(parts: seq<string>, sep: char, c: char)
    requires c != sep
    requires forall i :: 0 <= i < |parts| ==> c !in parts[i]
    ensures c !in Join(parts, sep)
  {
    if |parts| > 1 {
      JoinAvoids(parts[1..], sep, c);
    }
  }

  /** A record whose first field lists `entries` yields their addresses in
      entry order, whatever follows the first `;`. */
  lemma HandleLineFields<A>(entries: seq<string>, rest: string, p: Parsers<A>)
    requires |entries| >= 1
    requires forall i :: 0 <= i < |entries| ==> '|' !in entries[i] && ';' !in entries[i]
    ensures HandleLine(Join(entries, '|') + [';'] + rest, p) == EntriesIps(entries, p)
  {
    var field := Join(entries, '|');
    JoinAvoids(entries, '|', ';');
    BeforeFirstOfJoined(field, ';', rest);
    SplitJoin(entries, '|');
  }

  /** Only the text before the first `;` matters. */
  lemma HandleLineIgnoresRest<A>(field: string, rest1: string, rest2: string, p: Parsers<A>)
    requires ';' !in field
    ensures HandleLine(field + [';'] + rest1, p) == HandleLine(field + [';'] + rest2, p)
  {
    BeforeFirstOfJoined(field, ';', rest1);
    BeforeFirstOfJoined(field, ';', rest2);
  }

  /** An address comes out of a line exactly when the line has a `;` and
      one `|`-separated entry of its first field contributes it. */
  lemma HandleLineMembers<A>(line: string, p: Parsers<A>, x: A)
    ensures x in HandleLine(line, p) <==>
      ';' in line && exists i :: 0 <= i < |RecordEntries(line)| && x in EntryIps(Strip(RecordEntries(line)[i]), p)
  {
    if ';' in line {
      EntriesIpsMembers(RecordEntries(line), p, x);
    }
  }

  /** The union of the glob results of all patterns. */
  function Globbed(patterns: seq<string>, glob: string -> seq<string>): (r: set<string>)
    ensures forall f :: f in r <==> exists i :: 0 <= i < |patterns| && f in glob(patterns[i])
  {
    if |patterns| == 0 then {}
    else
      var init := patterns[..|patterns| - 1];
      var found := glob(patterns[|patterns| - 1]);
      var r := Globbed(init, glob) + set f | f in found;
      assert forall i :: 0 <= i < |init| ==> init[i] == patterns[i];
      r
  }

  /** The source list of `dump_to_ips.py`: the glob results of all patterns,
      sorted, each once; an empty list ends the run with the message
      "No sources specified". */
  function SourceFiles(patterns: seq<string>, glob: string -> seq<string>)
    : (r: Result<seq<string>, string>)
    ensures r.Failure? <==> forall i :: 0 <= i < |patterns| ==> glob(patterns[i]) == []
    ensures r.Failure? ==> r.error == "No sources specified"
    ensures r.Success? ==> Ascending(r.value)
    ensures r.Success? ==> forall f :: f in r.value <==>
      exists i :: 0 <= i < |patterns| && f in glob(patterns[i])
  {
    var all := Globbed(patterns, glob);
    var files := SortedList(all);
    if |files| == 0 then
      NothingFound(patterns, glob);
      Failure("No sources specified")
    else
      assert files[0] in all;
      Success(files)
  }

  lemma FirstFound(patterns: seq<string>, glob: string -> seq<string>, i: nat)
    requires i < |patterns|
    ensures glob(patterns[i]) != [] ==> glob(patterns[i])[0] in Globbed(patterns, glob)
  {
  }

  lemma NothingFound(patterns: seq<string>, glob: string -> seq<string>)
    requires Globbed(patterns, glob) == {}
    ensures forall i :: 0 <= i < |patterns| ==> glob(patterns[i]) == []
  {
    forall i | 0 <= i < |patterns|
      ensures glob(patterns[i]) == []
    {
      FirstFound(patterns, glob, i);
    }
  }

  /** Each source file is listed once. */
  lemma SourceFilesOnce(patterns: seq<string>, glob: string -> seq<string>)
    requires SourceFiles(patterns, glob).Success?
    ensures NoDuplicates(SourceFiles(patterns, glob).value)
  {
    var files := SourceFiles(patterns, glob).value;
    forall i, j | 0 <= i < j < |files|
      ensures files[i] != files[j]
    {
      AscendingDistinct(files, i, j);
    }
  }

  /** The list depends only on which files the patterns find: neither the
      order of the patterns nor repeated patterns or overlapping globs
      change it. */
  lemma SourceFilesIgnorePatternOrder(p1: seq<string>, p2: seq<string>, glob: string -> seq<string>)
    requires forall q :: q in p1 <==> q in p2
    ensures SourceFiles(p1, glob) == SourceFiles(p2, glob)
  {
    forall f | f in Globbed(p1, glob)
      ensures f in Globbed(p2, glob)
    {
      var i :| 0 <= i < |p1| && f in glob(p1[i]);
      assert p1[i] in p2;
    }
    forall f | f in Globbed(p2, glob)
      ensures f in Globbed(p1, glob)
    {
      var i :| 0 <= i < |p2| && f in glob(p2[i]);
      assert p2[i] in p1;
    }
    assert Globbed(p1, glob) == Globbed(p2, glob);
  }

  /** The lines `file_iterator` yields: the lines of each file in turn. */
  function FileLines(files: seq<string>, read: string -> seq<string>): (r: seq<string>)
    ensures forall l :: l in r <==> exists i :: 0 <= i < |files| && l in read(files[i])
  {
    var perFile := seq(|files|, i requires 0 <= i < |files| => read(files[i]));
    assert forall i :: 0 <= i < |files| ==> perFile[i] == read(files[i]);
    Flatten(perFile)
  }

  /** The writer loop fed by `handle_line`: every address of every line,
      each written once, in the order the lines arrive. */
  method ExtractIps<A(==,!new)>(lines: seq<string>, p: Parsers<A>) returns (out: seq<A>)
    ensures NoDuplicates(out)
    ensures forall x :: x in out <==> exists i :: 0 <= i < |lines| && x in HandleLine(lines[i], p)
  {
    var batches := seq(|lines|, i requires 0 <= i < |lines| => HandleLine(lines[i], p));
    assert forall i :: 0 <= i < |lines| ==> batches[i] == HandleLine(lines[i], p);
    out := WriteUnique(batches);
  }

  /** `dump_to_ips.py` end to end. */
  method DumpToIps<A(==,!new)>(patterns: seq<string>, glob: string -> seq<string>,
                              read: string -> seq<string>, p: Parsers<A>)
    returns (r: Result<seq<A>, string>)
    ensures r.Failure? <==> forall i :: 0 <= i < |patterns| ==> glob(patterns[i]) == []
    ensures r.Failure? ==> r.error == "No sources specified"
    ensures r.Success? ==> NoDuplicates(r.value)
    ensures r.Success? ==> forall x :: x in r.value <==>
      exists l :: l in FileLines(SourceFiles(patterns, glob).value, read) && x in HandleLine(l, p)
  {
    var files := SourceFiles(patterns, glob);
    if files.Failure? {
      return Failure(files.error);
    }
    var lines := FileLines(files.value, read);
    var out := ExtractIps(lines, p);
    return Success(out);
  }

  /** The text `s` holds `w` starting at position `i`. */
  predicate Occurs(s: string, w: string, i: nat) {
    i + |w| <= |s| && s[i..i + |w|] == w
  }

  /** What `re.match(".*dump.*\.csv", name)` accepts: the match is anchored
      at the start only, `.` does not match a newline, and `\.` is a literal
      dot. So some "dump" is followed, at or after its end, by ".csv", with
      no newline before that ".csv"; anything may follow it. */
  ghost predicate DumpCsvName(name: string) {
    exists i: nat, j: nat :: i + 4 <= j && Occurs(name, "dump", i) && Occurs(name, ".csv", j)
      && '\n' !in name[..j]
  }

  /** Scanning for ".csv" before the first newline. */
  function CsvAhead(s: string): bool
    decreases |s|
  {
    if |s| >= 4 && s[..4] == ".csv" then true
    else if |s| == 0 || s[0] == '\n' then false
    else CsvAhead(s[1..])
  }

  /** Scanning for "dump", then for ".csv" after it, before the first
      newline; the earliest "dump" leaves the most room for ".csv". */
  function DumpAhead(s: string): bool
    decreases |s|
  {
    if |s| >= 4 && s[..4] == "dump" then CsvAhead(s[4..])
    else if |s| == 0 || s[0] == '\n' then false
    else DumpAhead(s[1..])
  }

  /** The member filter of `archive_to_ips.py`. */
  function IsDumpMember(name: string): bool {
    DumpAhead(name)
  }

  lemma {:induction false} CsvAheadSound(s: string)
    requires CsvAhead(s)
    ensures exists j: nat :: Occurs(s, ".csv", j) && '\n' !in s[..j]
    decreases |s|
  {
    if |s| >= 4 && s[..4] == ".csv" {
      assert Occurs(s, ".csv", 0) && s[..0] == [];
    } else {
      CsvAheadSound(s[1..]);
      var j: nat :| Occurs(s[1..], ".csv", j) && '\n' !in s[1..][..j];
      assert s[1..][j..j + 4] == s[j + 1..j + 5];
      assert s[..j + 1] == [s[0]] + s[1..][..j];
      assert Occurs(s, ".csv", j + 1);
    }
  }

  lemma {:induction false} CsvAheadComplete(s: string, j: nat)
    requires Occurs(s, ".csv", j) && '\n' !in s[..j]
    ensures CsvAhead(s)
    decreases |s|
  {
    if j == 0 {
      assert s[..4] == ".csv";
    } else if !(|s| >= 4 && s[..4] == ".csv") {
      assert s[0] == s[..j][0];
      assert s[1..][j - 1..j + 3] == s[j..j + 4];
      assert s[1..][..j - 1] == s[1..j];
      assert forall k :: 0 <= k < j - 1 ==> s[1..j][k] == s[..j][k + 1];
      CsvAheadComplete(s[1..], j - 1);
    }
  }

  lemma {:induction false} DumpAheadSound(s: string)
    requires DumpAhead(s)
    ensures DumpCsvName(s)
    decreases |s|
  {
    if |s| >= 4 && s[..4] == "dump" {
      DumpAtStart(s);
    } else {
      DumpAheadSound(s[1..]);
      DumpShifted(s);
    }
  }

  /** An occurrence in a suffix is an occurrence in the whole. */
  lemma OccursIn(s: string, k: nat, w: string, j: nat)
    requires k <= |s| && Occurs(s[k..], w, j)
    ensures Occurs(s, w, j + k)
  {
    assert s[k..][j..j + |w|] == s[j + k..j + k + |w|];
  }

  lemma DumpAtStart(s: string)
    requires |s| >= 4 && s[..4] == "dump" && CsvAhead(s[4..])
    ensures DumpCsvName(s)
  {
    CsvAheadSound(s[4..]);
    var j: nat :| Occurs(s[4..], ".csv", j) && '\n' !in s[4..][..j];
    OccursIn(s, 4, ".csv", j);
    assert s[..j + 4] == s[..4] + s[4..][..j];
    assert Occurs(s, "dump", 0);
  }

  lemma DumpShifted(s: string)
    requires |s| >= 1 && s[0] != '\n' && DumpCsvName(s[1..])
    ensures DumpCsvName(s)
  {
    var i: nat, j: nat :| i + 4 <= j && Occurs(s[1..], "dump", i) && Occurs(s[1..], ".csv", j)
      && '\n' !in s[1..][..j];
    OccursIn(s, 1, "dump", i);
    OccursIn(s, 1, ".csv", j);
    assert s[..j + 1] == [s[0]] + s[1..][..j];
  }

  lemma {:induction false} DumpAheadComplete(s: string, i: nat, j: nat)
    requires i + 4 <= j && Occurs(s, "dump", i) && Occurs(s, ".csv", j) && '\n' !in s[..j]
    ensures DumpAhead(s)
    decreases |s|
  {
    if i == 0 {
      assert s[..4] == s[i..i + 4];
    }
    if |s| >= 4 && s[..4] == "dump" {
      assert s[4..][j - 4..j] == s[j..j + 4];
      assert s[4..][..j - 4] == s[4..j];
      assert forall k :: 0 <= k < j - 4 ==> s[4..j][k] == s[..j][k + 4];
      CsvAheadComplete(s[4..], j - 4);
    } else {
      assert s[0] == s[..j][0];
      assert s[1..][i - 1..i + 3] == s[i..i + 4];
      assert s[1..][j - 1..j + 3] == s[j..j + 4];
      assert s[1..][..j - 1] == s[1..j];
      assert forall k :: 0 <= k < j - 1 ==> s[1..j][k] == s[..j][k + 1];
      DumpAheadComplete(s[1..], i - 1, j - 1);
    }
  }

  /** The scanning filter accepts exactly the names the pattern matches. */
  lemma IsDumpMemberIff(name: string)
    ensures IsDumpMember(name) <==> DumpCsvName(name)
  {
    if IsDumpMember(name) {
      DumpAheadSound(name);
    }
    if DumpCsvName(name) {
      var i: nat, j: nat :| i + 4 <= j && Occurs(name, "dump", i) && Occurs(name, ".csv", j)
        && '\n' !in name[..j];
      DumpAheadComplete(name, i, j);
    }
  }

  /** The end of the name is not anchored: a backup copy of a dump is read
      too. */
  lemma BackupCopyIsRead()
    ensures IsDumpMember("x_dump.csv.bak")
  {
    var name := "x_dump.csv.bak";
    assert Occurs(name, "dump", 2) && Occurs(name, ".csv", 6) && '\n' !in name[..6];
    IsDumpMemberIff(name);
  }

  /** The dot is literal, and a newline before ".csv" stops the match:
      "dump_csv" and "\ndump.csv" are not read. */
  lemma NotDumpMembers(name: string)
    ensures '.' !in name ==> !IsDumpMember(name)
    ensures |name| > 0 && name[0] == '\n' ==> !IsDumpMember(name)
  {
    IsDumpMemberIff(name);
    if DumpCsvName(name) {
      var i: nat, j: nat :| i + 4 <= j && Occurs(name, "dump", i) && Occurs(name, ".csv", j)
        && '\n' !in name[..j];
      assert name[j] == name[j..j + 4][0] == '.';
      assert name[0] == name[..j][0];
    }
  }

  /** The archive members `file_iterator` reads, in archive order. */
  function DumpMembers(names: seq<string>): (r: seq<string>)
    ensures forall n :: n in r <==> n in names && IsDumpMember(n)
  {
    if |names| == 0 then []
    else
      var init := names[..|names| - 1];
      var last := names[|names| - 1];
      assert names == init + [last];
      DumpMembers(init) + if IsDumpMember(last) then [last] else []
  }

  /** `archive_to_ips.py` end to end, `read` giving a member's decoded
      lines. */
  method ArchiveToIps<A(==,!new)>(names: seq<string>, read: string -> seq<string>, p: Parsers<A>)
    returns (out: seq<A>)
    ensures NoDuplicates(out)
    ensures forall x :: x in out <==>
      exists l :: l in FileLines(DumpMembers(names), read) && x in HandleLine(l, p)
  {
    var lines := FileLines(DumpMembers(names), read);
    out := ExtractIps(lines, p);
  }
}
