/**
 The service's start script, from the split list of configured groups on: one
 joiner per non-empty entry, `group` or `group@source,source`, or idling when
 there is none.
 */
module MethodScript {
  import opened Options
  import opened Text

  /** A spawned server: its group argument and the arguments after it. */
  datatype Joiner = Joiner(group: string, args: seq<string>)

  const SOURCE_FLAG: string := "--multicast-source"

  // ---------- The shell's expansions ----------

  /** One leading and one trailing double quote, if present, are removed. */
  function StripQuotes(entry: string): string {
    var tail := if entry != "" && entry[0] == '"' then entry[1..] else entry;
    if tail != "" && tail[|tail| - 1] == '"' then tail[..|tail| - 1] else tail
  }

  /** The fields `read` splits a line into at commas. A final empty field, which `read` drops, is kept here. */
  function Fields(line: string): (r: seq<string>)
    decreases |line|
  {
    BeforeMeaning(line, ',');
    if ',' in line then [Before(line, ',')] + Fields(After(line, ',')) else [line]
  }

  function SourceArgs(fields: seq<string>): seq<string> {
    if fields == [] then []
    else
      var before, field := SourceArgs(fields[..|fields| - 1]), fields[|fields| - 1];
      if field == "" then before else before + [SOURCE_FLAG, field]
  }

  /** Empty fields vanish, and the fields around them keep their order. */
  lemma {:induction false} SourceArgsLaws(a: seq<string>, b: seq<string>, field: string)
    ensures SourceArgs([]) == [] && SourceArgs([""]) == []
    ensures field != "" ==> SourceArgs([field]) == ["--multicast-source", field]
    ensures SourceArgs(a + b) == SourceArgs(a) + SourceArgs(b)
    decreases |b|
  {
    assert [field][..0] == [] && [""][..0] == [];
    if b == [] {
      assert a + b == a;
    } else {
      SourceArgsLaws(a, b[..|b| - 1], field);
      assert (a + b)[..|a + b| - 1] == a + b[..|b| - 1];
    }
  }

  /** The joiner for a stripped, non-empty entry. `read` takes one line. */
  function JoinerFor(entry: string): Joiner {
    Joiner(Before(entry, '@'),
           if '@' in entry then SourceArgs(Fields(Before(After(entry, '@'), '\n'))) else [])
  }

  function Joiners(entries: seq<string>): seq<Joiner> {
    if entries == [] then []
    else
      var before, entry := Joiners(entries[..|entries| - 1]), StripQuotes(entries[|entries| - 1]);
      if entry == "" then before else before + [JoinerFor(entry)]
  }

  /** Nothing is left of the entry. */
  predicate Skipped(entry: string) {
    StripQuotes(entry) == ""
  }

  /** It was empty, or nothing but one or two quotes. */
  lemma SkippedIff(entry: string)
    ensures Skipped(entry) <==> entry == "" || entry == "\"" || entry == "\"\""
  {
    if Skipped(entry) && entry != "" {
      assert entry == "\"" || entry == "\"" + entry[1..];
      assert |entry| <= 2;
    }
  }

  /** Entries are taken one by one: skipped ones start nothing, each other one its joiner. */
  lemma JoinersOfOne(entry: string)
    ensures Joiners([]) == []
    ensures Joiners([entry]) ==
      if entry == "" || entry == "\"" || entry == "\"\"" then [] else [JoinerFor(StripQuotes(entry))]
  {
    SkippedIff(entry);
    assert [entry][..0] == [];
  }

  lemma JoinersSnoc(entries: seq<string>, entry: string)
    ensures Joiners(entries + [entry]) == Joiners(entries) + Joiners([entry])
  {
    assert (entries + [entry])[..|entries|] == entries;
    assert [entry][..0] == [];
  }

  lemma {:induction false} JoinersConcat(a: seq<string>, b: seq<string>)
    ensures Joiners(a + b) == Joiners(a) + Joiners(b)
    decreases |b|
  {
    if b == [] {
      assert a + b == a;
    } else {
      var before, last := b[..|b| - 1], b[|b| - 1];
      assert b == before + [last] && a + b == (a + before) + [last];
      JoinersConcat(a, before);
      JoinersSnoc(a + before, last);
      JoinersSnoc(before, last);
    }
  }

  // ---------- The script ----------

  method SourceList(fields: seq<string>) returns (args: seq<string>)
    ensures args == SourceArgs(fields)
  {
    args := [];
    for k := 0 to |fields|
      invariant args == SourceArgs(fields[..k])
    {
      assert fields[..k + 1][..k] == fields[..k];
      if fields[k] == "" {
        continue;
      }
      args := args + [SOURCE_FLAG, fields[k]];
    }
    assert fields[..|fields|] == fields;
  }

  method StartJoiner(entry: string) returns (joiner: Joiner)
    ensures joiner == JoinerFor(entry)
  {
    var group := Before(entry, '@');
    var args: seq<string> := [];
    if '@' in entry {
      args := SourceList(Fields(Before(After(entry, '@'), '\n')));
    }
    joiner := Joiner(group, args);
  }

  lemma JoinersStep(entries: seq<string>, i: nat)
    requires i < |entries|
    ensures Joiners(entries[..i + 1])
         == if Skipped(entries[i]) then Joiners(entries[..i])
            else Joiners(entries[..i]) + [JoinerFor(StripQuotes(entries[i]))]
  {
    assert entries[..i + 1][..i] == entries[..i];
  }

  lemma {:induction false} NoJoinersIff(entries: seq<string>)
    ensures Joiners(entries) == [] <==> forall i | 0 <= i < |entries| :: Skipped(entries[i])
  {
    if entries != [] {
      NoJoinersIff(entries[..|entries| - 1]);
    }
  }

  method Spawn(entries: seq<string>) returns (joiners: seq<Joiner>, idle: bool)
    ensures joiners == Joiners(entries)
    ensures idle <==> joiners == []
    ensures idle <==>
      forall i | 0 <= i < |entries| :: entries[i] == "" || entries[i] == "\"" || entries[i] == "\"\""
  {
    joiners := [];
    for i := 0 to |entries|
      invariant joiners == Joiners(entries[..i])
    {
      JoinersStep(entries, i);
      var entry := StripQuotes(entries[i]);
      if entry == "" {
        continue;
      }
      var joiner := StartJoiner(entry);
      joiners := joiners + [joiner];
    }
    assert entries[..|entries|] == entries;
    NoJoinersIff(entries);
    forall i | 0 <= i < |entries|
      ensures Skipped(entries[i]) <==> entries[i] == "" || entries[i] == "\"" || entries[i] == "\"\""
    {
      SkippedIff(entries[i]);
    }
    idle := |joiners| == 0;
  }

  ghost function NonEmptyEntries(entries: seq<string>): set<int> {
    set i: int | 0 <= i < |entries| && !Skipped(entries[i])
  }

  lemma NonEmptySnoc(entries: seq<string>, entry: string)
    ensures |NonEmptyEntries(entries + [entry])|
         == |NonEmptyEntries(entries)| + (if Skipped(entry) then 0 else 1)
  {
    var all := entries + [entry];
    var extra: set<int> := if Skipped(entry) then {} else {|entries|};
    assert forall j {:trigger all[j]} {:trigger entries[j]} :: 0 <= j < |entries| ==> all[j] == entries[j];
    forall i: int
      ensures i in NonEmptyEntries(all) <==> i in NonEmptyEntries(entries) + extra
    {
    }
    assert NonEmptyEntries(all) == NonEmptyEntries(entries) + extra;
  }

  /** One joiner per entry that is not empty after stripping. */
  lemma {:induction false} JoinersStarted(entries: seq<string>)
    ensures |Joiners(entries)| == |NonEmptyEntries(entries)|
  {
    if entries == [] {
      assert NonEmptyEntries(entries) == {};
    } else {
      var before, last := entries[..|entries| - 1], entries[|entries| - 1];
      assert entries == before + [last];
      JoinersStarted(before);
      NonEmptySnoc(before, last);
    }
  }

  // ---------- The encoding of an entry, and its inverse ----------

  /** Sources separated by commas. */
  function Glue(sources: seq<string>): string {
    if sources == [] then ""
    else if |sources| == 1 then sources[0]
    else sources[0] + "," + Glue(sources[1..])
  }

  function Encode(group: string, sources: seq<string>): string {
    if sources == [] then group else group + "@" + Glue(sources)
  }

  function Quoted(s: string): string {
    "\"" + s + "\""
  }

  function Flagged(sources: seq<string>): seq<string> {
    if sources == [] then [] else Flagged(sources[..|sources| - 1]) + [SOURCE_FLAG, sources[|sources| - 1]]
  }

  /** What `read` and the skipping of empty fields can give back. */
  ghost predicate Plain(source: string) {
    source != "" && ',' !in source && '\n' !in source
  }

  ghost predicate WellFormed(group: string, sources: seq<string>) {
    '@' !in group && (forall i | 0 <= i < |sources| :: Plain(sources[i]))
  }

  lemma {:induction false} GluedOnOneLine(sources: seq<string>)
    requires forall i | 0 <= i < |sources| :: '\n' !in sources[i]
    ensures '\n' !in Glue(sources)
  {
    if |sources| > 1 {
      GluedOnOneLine(sources[1..]);
    }
  }

  /** A line without commas is one field, and a comma starts another. */
  lemma FieldsOfTwo(first: string, rest: string)
    requires ',' !in first
    ensures Fields(first) == [first]
    ensures Fields(first + [','] + rest) == [first] + Fields(rest)
  {
    SplitGlued(first, ',', rest);
    assert (first + [','] + rest)[|first|] == ',';
  }

  lemma FirstLine(line: string, rest: string)
    requires '\n' !in line
    ensures Before(line, '\n') == line && Before(line + "\n" + rest, '\n') == line
  {
    BeforeMeaning(line, '\n');
    SplitGlued(line, '\n', rest);
    assert line + "\n" + rest == line + ['\n'] + rest;
  }

  lemma JoinerForTail(group: string, tail: string)
    requires '@' !in group
    ensures JoinerFor(group + "@" + tail) == Joiner(group, SourceArgs(Fields(Before(tail, '\n'))))
  {
    var entry := group + ['@'] + tail;
    assert group + "@" + tail == entry;
    SplitGlued(group, '@', tail);
    assert entry[|group|] == '@';
  }

  /** A group alone has no sources; after an `@` they are the fields of the first line. */
  lemma JoinerForMeaning(group: string, line: string, rest: string)
    requires '@' !in group && '\n' !in line
    ensures JoinerFor(group) == Joiner(group, [])
    ensures JoinerFor(group + "@" + line) == Joiner(group, SourceArgs(Fields(line)))
    ensures JoinerFor(group + "@" + (line + "\n" + rest)) == Joiner(group, SourceArgs(Fields(line)))
  {
    BeforeMeaning(group, '@');
    FirstLine(line, rest);
    JoinerForTail(group, line);
    JoinerForTail(group, line + "\n" + rest);
  }

  /** And a flag goes before each source. */
  lemma {:induction false} FlaggedMeaning(sources: seq<string>)
    ensures |Flagged(sources)| == 2 * |sources|
    ensures forall k | 0 <= k < |sources| ::
              Flagged(sources)[2 * k] == "--multicast-source" && Flagged(sources)[2 * k + 1] == sources[k]
  {
    if sources != [] {
      FlaggedMeaning(sources[..|sources| - 1]);
    }
  }

  lemma {:induction false} FieldsOfGlue(sources: seq<string>)
    requires sources != [] && forall i | 0 <= i < |sources| :: ',' !in sources[i]
    ensures Fields(Glue(sources)) == sources
  {
    if |sources| > 1 {
      FieldsOfGlue(sources[1..]);
      FieldsOfTwo(sources[0], Glue(sources[1..]));
    }
  }

  lemma {:induction false} PlainFieldsKept(sources: seq<string>)
    requires forall i | 0 <= i < |sources| :: sources[i] != ""
    ensures SourceArgs(sources) == Flagged(sources)
  {
    if sources != [] {
      PlainFieldsKept(sources[..|sources| - 1]);
    }
  }

  /** Whatever is decoded is well formed: the fields kept are non-empty and free of separators. */
  lemma {:induction false} FieldsArePlain(line: string)
    requires '\n' !in line
    ensures forall i | 0 <= i < |Fields(line)| :: ',' !in Fields(line)[i] && '\n' !in Fields(line)[i]
    decreases |line|
  {
    BeforeMeaning(line, ',');
    if ',' in line {
      var first, rest := Before(line, ','), After(line, ',');
      assert line == first + [','] + rest;
      FieldsArePlain(rest);
    }
  }

  lemma {:induction false} ArgsArePlain(fields: seq<string>, sources: seq<string>)
    requires forall i | 0 <= i < |fields| :: ',' !in fields[i] && '\n' !in fields[i]
    requires SourceArgs(fields) == Flagged(sources)
    ensures forall i | 0 <= i < |sources| :: Plain(sources[i])
    decreases |fields|
  {
    if fields == [] {
      assert sources == [];
    } else {
      var before, field := fields[..|fields| - 1], fields[|fields| - 1];
      if field == "" {
        ArgsArePlain(before, sources);
      } else {
        assert sources != [];
        var last := |sources| - 1;
        var args := Flagged(sources);
        assert args[..|args| - 2] == Flagged(sources[..last]);
        assert args[|args| - 1] == sources[last];
        ArgsArePlain(before, sources[..last]);
      }
    }
  }

  /** Stripped entries decode to what was encoded exactly when that was well formed. */
  lemma DecodeEncodedIff(group: string, sources: seq<string>)
    ensures JoinerFor(Encode(group, sources)) == Joiner(group, Flagged(sources)) <==> WellFormed(group, sources)
  {
    var entry := Encode(group, sources);
    var joiner := JoinerFor(entry);
    if WellFormed(group, sources) {
      if sources == [] {
        BeforeMeaning(group, '@');
      } else {
        var glued := Glue(sources);
        assert entry == group + ['@'] + glued;
        SplitGlued(group, '@', glued);
        FieldsOfGlue(sources);
        GluedOnOneLine(sources);
        BeforeMeaning(glued, '\n');
        PlainFieldsKept(sources);
        BeforeMeaning(entry, '@');
      }
    }
    if joiner == Joiner(group, Flagged(sources)) {
      if '@' in entry {
        var line := Before(After(entry, '@'), '\n');
        FieldsArePlain(line);
        ArgsArePlain(Fields(line), sources);
      } else {
        ArgsArePlain([], sources);
      }
    }
  }

  /** Every entry: at each end one quote is stripped if there is one, and nothing else. */
  lemma StripUndoesQuoting(entry: string)
    ensures StripQuotes(Quoted(entry)) == entry
    ensures StripQuotes("\"" + entry + "\"") == entry && StripQuotes("") == ""
    ensures entry == "" || entry[|entry| - 1] != '"' ==> StripQuotes("\"" + entry) == entry
    ensures entry == "" || entry[0] != '"' ==> StripQuotes(entry + "\"") == entry
    ensures entry != "" && entry[0] != '"' && entry[|entry| - 1] != '"' ==> StripQuotes(entry) == entry
  {
    assert Quoted(entry)[1..] == entry + "\"";
  }

  /** A configured membership: a group and its sources, none for any source. */
  datatype Membership = Membership(group: string, sources: seq<string>)

  /** `entry` is the membership's encoding, quoted or bare. */
  ghost predicate Encodes(entry: string, m: Membership) {
    var encoded := Encode(m.group, m.sources);
    && encoded != "" && WellFormed(m.group, m.sources)
    && (entry == Quoted(encoded)
        || (entry == encoded && entry[0] != '"' && entry[|entry| - 1] != '"'))
  }

  ghost predicate AllEncode(entries: seq<string>, members: seq<Membership>) {
    |entries| == |members| && forall i | 0 <= i < |members| :: Encodes(entries[i], members[i])
  }

  function JoinersOf(members: seq<Membership>): seq<Joiner> {
    if members == [] then []
    else
      var last := members[|members| - 1];
      JoinersOf(members[..|members| - 1]) + [Joiner(last.group, Flagged(last.sources))]
  }

  lemma EntryRoundTrip(entry: string, m: Membership)
    requires Encodes(entry, m)
    ensures StripQuotes(entry) != "" && JoinerFor(StripQuotes(entry)) == Joiner(m.group, Flagged(m.sources))
  {
    StripUndoesQuoting(Encode(m.group, m.sources));
    DecodeEncodedIff(m.group, m.sources);
  }

  /** The whole list decodes to one joiner per membership, in order, each with exactly its sources. */
  lemma {:induction false} RoundTrip(entries: seq<string>, members: seq<Membership>)
    requires AllEncode(entries, members)
    ensures Joiners(entries) == JoinersOf(members)
  {
    if members != [] {
      var n := |members| - 1;
      RoundTrip(entries[..n], members[..n]);
      EntryRoundTrip(entries[n], members[n]);
    }
  }
}
