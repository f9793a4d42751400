/** `ipset_build_delta.py`: the entries of the old and the new ipset
    listings, and the `del` and `add` commands that turn the old set into
    the new one. Entries are compared as stripped strings, not as networks. */
module Delta {
  import opened Wrappers
  import opened Text
  import opened Dedup

  /** `parse_ip_subnet`: a line holding any letter gives no entry; any other
      line gives its stripped text. `isAlpha` stands for Python's
      `str.isalpha` on one character. */
  function ParseIpSubnet(value: string, isAlpha: char -> bool): (r: Option<string>)
    ensures r.None? <==> exists c :: c in value && isAlpha(c)
    ensures r.Some? ==> r.value == Strip(value) && Trimmed(r.value)
    ensures r.Some? ==> forall c :: c in r.value ==> c in value && !isAlpha(c)
  {
    if exists c :: c in value && isAlpha(c) then None
    else
      var t := Strip(value);
      StripSplits(value);
      Some(t)
  }

  /** The set the script builds from one listing: the parse results that
      are neither `None` nor empty, the way `filter(None, ...)` drops
      both. */
  function Entries(lines: seq<string>, isAlpha: char -> bool): set<string> {
    if |lines| == 0 then {}
    else
      var before := Entries(lines[..|lines| - 1], isAlpha);
      match ParseIpSubnet(lines[|lines| - 1], isAlpha)
      case Some(e) => if e == [] then before else before + {e}
      case None => before
  }

  /** An entry is in the set exactly when some line parses to it and it is
      not empty. */
  lemma {:induction false} EntriesMembers(lines: seq<string>, isAlpha: char -> bool, e: string)
    ensures e in Entries(lines, isAlpha) <==>
      e != [] && exists i :: 0 <= i < |lines| && ParseIpSubnet(lines[i], isAlpha) == Some(e)
  {
    if |lines| > 0 {
      var n := |lines| - 1;
      var init := lines[..n];
      EntriesMembers(init, isAlpha, e);
      assert forall i :: 0 <= i < n ==> init[i] == lines[i];
    }
  }

  /** Every entry is non-empty, trimmed and free of letters. */
  lemma EntriesShape(lines: seq<string>, isAlpha: char -> bool, e: string)
    requires e in Entries(lines, isAlpha)
    ensures e != [] && Trimmed(e) && forall c :: c in e ==> !isAlpha(c)
  {
    EntriesMembers(lines, isAlpha, e);
  }

  /** Only which lines occur matters: two listings with the same lines, in
      any order and with any repeats, give the same entries. */
  lemma EntriesOfSameLines(a: seq<string>, b: seq<string>, isAlpha: char -> bool)
    requires forall l :: l in a <==> l in b
    ensures Entries(a, isAlpha) == Entries(b, isAlpha)
  {
    forall e
      ensures e in Entries(a, isAlpha) ==> e in Entries(b, isAlpha)
      ensures e in Entries(b, isAlpha) ==> e in Entries(a, isAlpha)
    {
      EntriesMembers(a, isAlpha, e);
      EntriesMembers(b, isAlpha, e);
      if e in Entries(a, isAlpha) {
        var i :| 0 <= i < |a| && ParseIpSubnet(a[i], isAlpha) == Some(e);
        assert a[i] in b;
      }
      if e in Entries(b, isAlpha) {
        var i :| 0 <= i < |b| && ParseIpSubnet(b[i], isAlpha) == Some(e);
        assert b[i] in a;
      }
    }
  }

  /** A newline-terminated line of trimmed, letter-free text is read as
      that text. */
  lemma ParseLineOfText(t: string, isAlpha: char -> bool)
    requires Trimmed(t) && !isAlpha('\n') && forall c :: c in t ==> !isAlpha(c)
    ensures ParseIpSubnet(t + "\n", isAlpha) == Some(t)
  {
    assert forall c :: c in t + "\n" ==> c in t || c == '\n';
    StripUnique([], t, "\n");
    assert [] + t + "\n" == t + "\n";
  }

  lemma EntriesOfTwo(l0: string, l1: string, e0: string, e1: string, isAlpha: char -> bool)
    requires ParseIpSubnet(l0, isAlpha) == Some(e0) && ParseIpSubnet(l1, isAlpha) == Some(e1)
    requires e0 != [] && e1 != []
    ensures Entries([l0, l1], isAlpha) == {e0, e1}
  {
    assert [l0, l1][..1] == [l0] && [l0][..0] == [];
    assert Entries([l0], isAlpha) == {e0};
    assert Entries([l0, l1], isAlpha) == Entries([l0], isAlpha) + {e1};
  }

  /** Entries are compared as text: a host address and the same host
      written as a /32 network are two entries. */
  lemma SpellingsDiffer(isAlpha: char -> bool)
    requires !isAlpha('0') && !isAlpha('1') && !isAlpha('2') && !isAlpha('3')
    requires !isAlpha('.') && !isAlpha('/') && !isAlpha('\n')
    ensures Entries(["10.0.0.1\n", "10.0.0.1/32\n"], isAlpha) == {"10.0.0.1", "10.0.0.1/32"}
  {
    var host, net := "10.0.0.1", "10.0.0.1/32";
    assert Trimmed(host) && Trimmed(net) by {
      assert host[0] == net[0] == host[|host| - 1] == '1' && net[|net| - 1] == '2';
    }
    assert forall c :: c in host ==> !isAlpha(c) by {
      assert forall i :: 0 <= i < |host| ==> host[i] in {'0', '1', '.'};
    }
    assert forall c :: c in net ==> !isAlpha(c) by {
      assert forall i :: 0 <= i < |net| ==> net[i] in {'0', '1', '2', '3', '.', '/'};
    }
    ParseLineOfText(host, isAlpha);
    ParseLineOfText(net, isAlpha);
    assert host + "\n" == "10.0.0.1\n" && net + "\n" == "10.0.0.1/32\n";
    EntriesOfTwo(host + "\n", net + "\n", host, net, isAlpha);
  }

  /** The old set; without `--old` there is none and it is empty. */
  function OldEntries(listing: Option<seq<string>>, isAlpha: char -> bool): set<string> {
    match listing
    case None => {}
    case Some(lines) => Entries(lines, isAlpha)
  }

  datatype Command = Del(entry: string) | Add(entry: string)

  /** What ipset does with one command. */
  function Step(s: set<string>, c: Command): set<string> {
    match c
    case Del(e) => s - {e}
    case Add(e) => s + {e}
  }

  /** The set after running the commands in order. */
  function Apply(s: set<string>, cmds: seq<Command>): set<string> {
    if |cmds| == 0 then s
    else Step(Apply(s, cmds[..|cmds| - 1]), cmds[|cmds| - 1])
  }

  lemma ApplySnoc(s: set<string>, cmds: seq<Command>, c: Command)
    ensures Apply(s, cmds + [c]) == Step(Apply(s, cmds), c)
  {
    assert (cmds + [c])[..|cmds + [c]| - 1] == cmds;
  }

  /** No `add` comes before a `del`. */
  predicate DeletesFirst(cmds: seq<Command>) {
    forall i, j :: 0 <= i < j < |cmds| && cmds[j].Del? ==> cmds[i].Del?
  }

  /** The members of a set, each once, in some order: Python's iteration
      over a set, whose order the model leaves open. */
  method Enumerate<T(==,!new)>(s: set<T>) returns (r: seq<T>)
    ensures NoDuplicates(r)
    ensures forall x :: x in r <==> x in s
    ensures |r| == |s|
  {
    r := [];
    var rest := s;
    while rest != {}
      invariant rest <= s
      invariant forall x :: x in r <==> x in s && x !in rest
      invariant NoDuplicates(r)
      invariant |r| + |rest| == |s|
      decreases |rest|
    {
      var x :| x in rest;
      r := r + [x];
      rest := rest - {x};
    }
  }

  /** One `del` (or one `add`) per entry, in the entries' order. */
  function Tagged(entries: seq<string>, delete: bool): seq<Command> {
    seq(|entries|, i requires 0 <= i < |entries| => if delete then Del(entries[i]) else Add(entries[i]))
  }

  lemma ApplyConcat(s: set<string>, a: seq<Command>, b: seq<Command>)
    ensures Apply(s, a + b) == Apply(Apply(s, a), b)
  {
    if |b| == 0 {
      assert a + b == a;
    } else {
      var n := |b| - 1;
      assert (a + b)[..|a + b| - 1] == a + b[..n];
      assert (a + b)[|a + b| - 1] == b[n];
      ApplyConcat(s, a, b[..n]);
    }
  }

  /** Running a batch of deletions removes exactly those entries; a batch
      of additions adds exactly those. */
  lemma {:induction false} ApplyTagged(s: set<string>, entries: seq<string>, delete: bool)
    ensures Apply(s, Tagged(entries, delete)) ==
      if delete then s - (set e | e in entries) else s + (set e | e in entries)
  {
    if |entries| > 0 {
      var n := |entries| - 1;
      var init := entries[..n];
      assert Tagged(entries, delete)[..n] == Tagged(init, delete);
      ApplyTagged(s, init, delete);
      assert (set e | e in entries) == (set e | e in init) + {entries[n]} by {
        assert entries == init + [entries[n]];
      }
    }
  }

  lemma TaggedMembers(entries: seq<string>, delete: bool, c: Command)
    ensures c in Tagged(entries, delete) <==> c.entry in entries && c.Del? == delete
  {
    if c.entry in entries && c.Del? == delete {
      var i :| 0 <= i < |entries| && entries[i] == c.entry;
      assert Tagged(entries, delete)[i] == c;
    }
  }

  lemma TaggedUnique(entries: seq<string>, delete: bool)
    requires NoDuplicates(entries)
    ensures NoDuplicates(Tagged(entries, delete))
  {
  }

  /** The two batches, deletions first. */
  function Script(removed: seq<string>, added: seq<string>): seq<Command> {
    Tagged(removed, true) + Tagged(added, false)
  }

  lemma ScriptMembers(removed: seq<string>, added: seq<string>, e: string)
    ensures Del(e) in Script(removed, added) <==> e in removed
    ensures Add(e) in Script(removed, added) <==> e in added
  {
    TaggedMembers(removed, true, Del(e));
    TaggedMembers(added, false, Del(e));
    TaggedMembers(removed, true, Add(e));
    TaggedMembers(added, false, Add(e));
  }

  lemma ScriptShape(removed: seq<string>, added: seq<string>)
    requires NoDuplicates(removed) && NoDuplicates(added)
    ensures DeletesFirst(Script(removed, added))
    ensures NoDuplicates(Script(removed, added))
  {
    TaggedUnique(removed, true);
    TaggedUnique(added, false);
  }

  lemma ScriptApply(current: set<string>, wanted: set<string>, removed: seq<string>, added: seq<string>)
    requires forall e :: e in removed <==> e in current && e !in wanted
    requires forall e :: e in added <==> e in wanted && e !in current
    ensures Apply(current, Script(removed, added)) == wanted
  {
    ApplyConcat(current, Tagged(removed, true), Tagged(added, false));
    ApplyTagged(current, removed, true);
    assert current - (set e | e in removed) == current * wanted;
    ApplyTagged(current * wanted, added, false);
    assert (current * wanted) + (set e | e in added) == wanted;
  }

  /** The commands the script writes: a `del` for each entry only the old
      set has, then an `add` for each entry only the new set has, each
      once, and nothing for entries both have. Run against the old set,
      they give the new one. */
  method DeltaCommands(current: set<string>, wanted: set<string>) returns (cmds: seq<Command>)
    ensures DeletesFirst(cmds)
    ensures forall e :: Del(e) in cmds <==> e in current && e !in wanted
    ensures forall e :: Add(e) in cmds <==> e in wanted && e !in current
    ensures NoDuplicates(cmds)
    ensures |cmds| == |current - wanted| + |wanted - current|
    ensures Apply(current, cmds) == wanted
  {
    var removed := Enumerate(current - wanted);
    var added := Enumerate(wanted - current);
    cmds := Script(removed, added);
    forall e
      ensures Del(e) in cmds <==> e in removed
      ensures Add(e) in cmds <==> e in added
    {
      ScriptMembers(removed, added, e);
    }
    ScriptShape(removed, added);
    ScriptApply(current, wanted, removed, added);
  }

  /** One output line. */
  function Render(ipset: string, c: Command): string {
    match c
    case Del(e) => "del " + ipset + " " + e + "\n"
    case Add(e) => "add " + ipset + " " + e + "\n"
  }

  /** Reading an output line back: the verb, the set name up to the next
      space, and the entry up to the final newline. */
  function ParseLine(line: string): Option<(string, Command)> {
    if |line| < 5 || line[|line| - 1] != '\n' || line[3] != ' ' then None
    else ParseFields(line[..3], line[4..|line| - 1])
  }

  function ParseFields(verb: string, body: string): Option<(string, Command)> {
    if ' ' !in body then None
    else
      var k := IndexOf(body, ' ');
      var name, entry := body[..k], body[k + 1..];
      if verb == "del" then Some((name, Del(entry)))
      else if verb == "add" then Some((name, Add(entry)))
      else None
  }

  lemma ParseFraming(verb: string, body: string)
    requires |verb| == 3
    ensures ParseLine(verb + " " + body + "\n") == ParseFields(verb, body)
  {
    var line := verb + " " + body + "\n";
    assert line[..3] == verb;
    assert line[3] == ' ';
    assert line[4..|line| - 1] == body;
  }

  lemma ParseFieldsJoined(verb: string, ipset: string, entry: string)
    requires ' ' !in ipset
    ensures ParseFields(verb, ipset + " " + entry) ==
      if verb == "del" then Some((ipset, Del(entry)))
      else if verb == "add" then Some((ipset, Add(entry)))
      else None
  {
    var body := ipset + " " + entry;
    IndexOfJoined(ipset, ' ', entry);
    assert body[..|ipset|] == ipset;
    assert body[|ipset| + 1..] == entry;
  }

  /** A line names its set and its entry unambiguously when the set name
      has no space. */
  lemma ParseRender(ipset: string, c: Command)
    requires ' ' !in ipset
    ensures ParseLine(Render(ipset, c)) == Some((ipset, c))
  {
    var verb := if c.Del? then "del" else "add";
    var body := ipset + " " + c.entry;
    assert Render(ipset, c) == verb + " " + body + "\n";
    ParseFraming(verb, body);
    ParseFieldsJoined(verb, ipset, c.entry);
  }

  function RenderAll(ipset: string, cmds: seq<Command>): string {
    if |cmds| == 0 then []
    else RenderAll(ipset, cmds[..|cmds| - 1]) + Render(ipset, cmds[|cmds| - 1])
  }

  /** The script end to end: the two listings in, the commands and the
      text written out. */
  method BuildDelta(ipset: string, oldLines: Option<seq<string>>, newLines: seq<string>,
                    isAlpha: char -> bool)
    returns (cmds: seq<Command>, text: string)
    ensures var current, wanted := OldEntries(oldLines, isAlpha), Entries(newLines, isAlpha);
      && DeletesFirst(cmds)
      && (forall e :: Del(e) in cmds <==> e in current && e !in wanted)
      && (forall e :: Add(e) in cmds <==> e in wanted && e !in current)
      && NoDuplicates(cmds)
      && Apply(current, cmds) == wanted
    ensures oldLines.None? ==> forall i :: 0 <= i < |cmds| ==> cmds[i].Add?
    ensures oldLines.None? ==> |cmds| == |Entries(newLines, isAlpha)|
    ensures text == RenderAll(ipset, cmds)
  {
    var current := OldEntries(oldLines, isAlpha);
    var wanted := Entries(newLines, isAlpha);
    cmds := DeltaCommands(current, wanted);
    if oldLines.None? {
      assert wanted - current == wanted && current - wanted == {};
      forall i | 0 <= i < |cmds|
        ensures cmds[i].Add?
      {
        assert Del(cmds[i].entry) in cmds ==> false;
      }
    }
    text := RenderAll(ipset, cmds);
  }
}
