// The versions file (lib/chainlink/core/gethwrappers/versions.go) as text: its writer, its reader,
// and when one undoes the other.
module Versions {
  import opened Sorting

  datatype ContractVersion = ContractVersion(hash: string, abiPath: string, binaryPath: string)

  datatype IntegratedVersion = IntegratedVersion(
    gethVersion: string,
    contractVersions: map<string, ContractVersion>)

  const GETH := "GETH_VERSION"

  // ---- Lines and fields ---------------------------------------------------------------------

  // unicode.IsSpace.
  predicate IsSpace(c: char) {
    || '\t' <= c <= '\r' || c == ' ' || c == '\U{85}' || c == '\U{A0}' || c == '\U{1680}'
    || '\U{2000}' <= c <= '\U{200A}' || c == '\U{2028}' || c == '\U{2029}' || c == '\U{202F}'
    || c == '\U{205F}' || c == '\U{3000}'
  }

  predicate NoSpace(s: string) { forall i :: 0 <= i < |s| ==> !IsSpace(s[i]) }

  // What strings.Fields can return.
  predicate IsToken(s: string) { s != "" && NoSpace(s) }

  // The length of s up to its first newline, or all of it.
  function LineLength(s: string): (n: nat)
    ensures n <= |s| && (n < |s| ==> s[n] == '\n')
    ensures forall i :: 0 <= i < n ==> s[i] != '\n'
  {
    if s == "" || s[0] == '\n' then 0 else 1 + LineLength(s[1..])
  }

  function DropCR(s: string): string {
    if s != "" && s[|s| - 1] == '\r' then s[..|s| - 1] else s
  }

  // bufio.ScanLines.
  function Lines(text: string): seq<string>
    decreases |text|
  {
    if text == "" then []
    else
      var n := LineLength(text);
      [DropCR(text[..n])] + if n == |text| then [] else Lines(text[n + 1..])
  }

  function TokenLength(s: string): (n: nat)
    ensures n <= |s| && (n < |s| ==> IsSpace(s[n]))
    ensures forall i :: 0 <= i < n ==> !IsSpace(s[i])
  {
    if s == "" || IsSpace(s[0]) then 0 else 1 + TokenLength(s[1..])
  }

  // strings.Fields.
  function Fields(s: string): (fields: seq<string>)
    ensures forall i :: 0 <= i < |fields| ==> IsToken(fields[i])
    decreases |s|
  {
    if s == "" then []
    else if IsSpace(s[0]) then Fields(s[1..])
    else
      var n := TokenLength(s);
      [s[..n]] + Fields(s[n..])
  }

  // ---- The reader ---------------------------------------------------------------------------

  datatype Entry =
    | Geth(version: string)
    | Contract(topic: string, info: ContractVersion)
    | Bad     // an error
    | Blank   // no field at all: line[0] is out of range

  function Parse(line: string): Entry {
    var f := Fields(line);
    if f == [] then Blank
    else if f[0][|f[0]| - 1] != ':' then Bad
    else
      var topic := f[0][..|f[0]| - 1];
      if topic == GETH then
        if |f| != 2 then Bad else Geth(f[1])
      else if |f| != 4 then Bad
      else Contract(topic, ContractVersion(f[3], f[1], f[2]))
  }

  datatype Outcome = Ok(db: IntegratedVersion) | Error | Panic

  function Enter(db: IntegratedVersion, e: Entry): Outcome {
    match e
    case Blank => Panic
    case Bad => Error
    case Geth(version) => if db.gethVersion != "" then Error else Ok(db.(gethVersion := version))
    case Contract(topic, info) =>
      if topic in db.contractVersions then Error
      else Ok(db.(contractVersions := db.contractVersions[topic := info]))
  }

  const EMPTY := IntegratedVersion("", map[])

  // Reading lines one after the other; the first failure is the outcome.
  function ReadLines(lines: seq<string>): Outcome {
    if lines == [] then Ok(EMPTY)
    else match ReadLines(lines[..|lines| - 1])
         case Ok(db) => Enter(db, Parse(lines[|lines| - 1]))
         case failure => failure
  }

  lemma {:induction false} FailureStays(lines: seq<string>, i: nat)
    requires i <= |lines| && !ReadLines(lines[..i]).Ok?
    ensures ReadLines(lines) == ReadLines(lines[..i])
  {
    if i < |lines| {
      var n := |lines| - 1;
      assert lines[..n][..i] == lines[..i];
      FailureStays(lines[..n], i);
    } else {
      assert lines[..i] == lines;
    }
  }

  // An index out of range: a line without fields comes before any other failure.
  predicate BlankAt(lines: seq<string>, i: nat) {
    i < |lines| && Fields(lines[i]) == [] && ReadLines(lines[..i]).Ok?
  }

  // Reading panics exactly then.
  lemma {:induction false} PanicIffBlankLine(lines: seq<string>)
    ensures ReadLines(lines) == Panic <==> exists i :: 0 <= i < |lines| && BlankAt(lines, i)
  {
    hide Fields;
    if lines != [] {
      var n := |lines| - 1;
      var before := lines[..n];
      PanicIffBlankLine(before);
      forall i | 0 <= i < n
        ensures BlankAt(before, i) <==> BlankAt(lines, i)
      {
        assert before[..i] == lines[..i];
      }
      forall i | 0 <= i < |lines| && BlankAt(lines, i)
        ensures ReadLines(lines) == Panic
      {
        BlankPanics(lines, i);
      }
      assert ReadLines(lines) == Panic && ReadLines(before).Ok? ==> BlankAt(lines, n);
    }
  }

  lemma BlankPanics(lines: seq<string>, i: nat)
    requires BlankAt(lines, i)
    ensures ReadLines(lines) == Panic
  {
    hide Fields;
    assert lines[..i + 1][..i] == lines[..i];
    FailureStays(lines, i + 1);
  }

  // A file that begins with an empty line is such a file, whatever comes after it.
  lemma EmptyFirstLinePanics(rest: string)
    ensures ReadLines(Lines("\n" + rest)) == Panic
  {
    FirstLine("", rest);
    assert "" + "\n" + rest == "\n" + rest;
    var lines := Lines("\n" + rest);
    assert lines[0] == "" && ReadLines(lines[..0]) == Ok(EMPTY);
    BlankPanics(lines, 0);
  }

  method ReadVersionsDB(text: string) returns (r: Outcome)
    ensures r == ReadLines(Lines(text))
    ensures r == Panic <==> exists i :: 0 <= i < |Lines(text)| && BlankAt(Lines(text), i)
  {
    hide Fields, Lines;
    var lines := Lines(text);
    PanicIffBlankLine(lines);
    var gethVersion := "";
    var contractVersions := map[];
    for i := 0 to |lines|
      invariant ReadLines(lines[..i]) == Ok(IntegratedVersion(gethVersion, contractVersions))
    {
      assert lines[..i + 1][..i] == lines[..i];
      if !ReadLines(lines[..i + 1]).Ok? { FailureStays(lines, i + 1); }
      var line := Fields(lines[i]);
      if |line| == 0 {
        return Panic;
      }
      if line[0][|line[0]| - 1] != ':' {
        return Error;
      }
      var topic := line[0][..|line[0]| - 1];
      if topic == GETH {
        if |line| != 2 {
          return Error;
        }
        if gethVersion != "" {
          return Error;
        }
        gethVersion := line[1];
      } else {
        if |line| != 4 {
          return Error;
        }
        if topic in contractVersions {
          return Error;
        }
        contractVersions := contractVersions[topic := ContractVersion(line[3], line[1], line[2])];
      }
    }
    assert lines[..|lines|] == lines;
    r := Ok(IntegratedVersion(gethVersion, contractVersions));
  }

  // ---- The writer ---------------------------------------------------------------------------

  function GethLine(version: string): string { GETH + ": " + version }

  function ContractLine(name: string, info: ContractVersion): string {
    name + ": " + info.abiPath + " " + info.binaryPath + " " + info.hash
  }

  // The lines for the names, each with its newline.
  function Written(names: seq<string>, m: map<string, ContractVersion>): string
    requires forall n :: n in names ==> n in m
  {
    if names == [] then ""
    else ContractLine(names[0], m[names[0]]) + "\n" + Written(names[1..], m)
  }

  ghost function WriteText(db: IntegratedVersion): string {
    GethLine(db.gethVersion) + "\n" + Written(SortedKeys(db.contractVersions.Keys), db.contractVersions)
  }

  method WriteVersionsDB(db: IntegratedVersion) returns (text: string)
    ensures text == WriteText(db)
  {
    text := GETH + ": " + db.gethVersion + "\n";
    var pkgNames := OrderedKeys(db.contractVersions);
    assert forall n :: n in pkgNames ==> n in Elements(pkgNames);
    var i := 0;
    while i < |pkgNames|
      invariant i <= |pkgNames|
      invariant text + Written(pkgNames[i..], db.contractVersions) == WriteText(db)
    {
      var name := pkgNames[i];
      assert pkgNames[i..][1..] == pkgNames[i + 1..];
      var vinfo := db.contractVersions[name];
      text := text + (ContractLine(name, vinfo) + "\n");
      i := i + 1;
    }
  }

  // ---- What a file denotes ------------------------------------------------------------------

  function Entries(lines: seq<string>): (es: seq<Entry>)
    ensures |es| == |lines| && forall i :: 0 <= i < |es| ==> es[i] == Parse(lines[i])
  {
    seq(|lines|, i requires 0 <= i < |lines| => Parse(lines[i]))
  }

  // The entries of db, each once, and nothing else.
  ghost predicate Denotes(es: multiset<Entry>, db: IntegratedVersion) {
    && (forall e :: e in es ==> es[e] == 1 && HasEntry(db, e))
    && forall e :: HasEntry(db, e) ==> e in es
  }

  predicate HasEntry(db: IntegratedVersion, e: Entry) {
    match e
    case Geth(version) => version != "" && version == db.gethVersion
    case Contract(topic, info) => topic in db.contractVersions && db.contractVersions[topic] == info
    case _ => false
  }

  // Entering one more entry.
  lemma EnterDenotes(es: multiset<Entry>, db: IntegratedVersion, e: Entry)
    requires Denotes(es, db) && (e.Geth? ==> e.version != "")
    ensures Enter(db, e).Ok? ==> Denotes(es + multiset{e}, Enter(db, e).db)
  {
    if Enter(db, e).Ok? {
      var db' := Enter(db, e).db;
      assert !HasEntry(db, e);
      assert e !in es;
      forall x
        ensures HasEntry(db', x) <==> x == e || HasEntry(db, x)
      {
      }
    }
  }

  // What is left when one entry is taken out of a database.
  function Without(db: IntegratedVersion, e: Entry): IntegratedVersion {
    match e
    case Geth(_) => db.(gethVersion := "")
    case Contract(topic, _) => db.(contractVersions := db.contractVersions - {topic})
    case _ => db
  }

  lemma WithoutDenotes(es: multiset<Entry>, db: IntegratedVersion, e: Entry)
    requires Denotes(es + multiset{e}, db)
    ensures Denotes(es, Without(db, e)) && Enter(Without(db, e), e) == Ok(db)
  {
    var all := es + multiset{e};
    var db' := Without(db, e);
    assert e in all && all[e] == 1;
    assert e !in es;
    forall x
      ensures HasEntry(db', x) <==> x != e && HasEntry(db, x)
    {
    }
    forall x | x in es
      ensures es[x] == 1 && HasEntry(db', x)
    {
      assert x in all && all[x] == 1;
    }
    if e.Contract? {
      assert (db.contractVersions - {e.topic})[e.topic := e.info] == db.contractVersions;
    }
  }

  lemma ParseVersion(line: string)
    ensures Parse(line).Geth? ==> IsToken(Parse(line).version)
  {
  }

  // Reading succeeds with db exactly when the lines are the entries of db, each once.
  lemma {:induction false} ReadsExactlyDenoted(lines: seq<string>, db: IntegratedVersion)
    ensures ReadLines(lines) == Ok(db) <==> Denotes(multiset(Entries(lines)), db)
  {
    hide Denotes, Parse, Enter, HasEntry;
    var es := multiset(Entries(lines));
    if lines == [] {
      EmptyDenotes(db);
    } else {
      var n := |lines| - 1;
      var e := Parse(lines[n]);
      var before := multiset(Entries(lines[..n]));
      assert Entries(lines) == Entries(lines[..n]) + [e];
      assert es == before + multiset{e};
      ParseVersion(lines[n]);
      if ReadLines(lines) == Ok(db) {
        var db' := ReadLines(lines[..n]).db;
        ReadsExactlyDenoted(lines[..n], db');
        EnterDenotes(before, db', e);
      }
      if Denotes(es, db) {
        WithoutDenotes(before, db, e);
        ReadsExactlyDenoted(lines[..n], Without(db, e));
      }
    }
  }

  lemma EmptyDenotes(db: IntegratedVersion)
    ensures Denotes(multiset([]), db) <==> db == EMPTY
  {
    if Denotes(multiset([]), db) {
      assert !HasEntry(db, Geth(db.gethVersion));
      forall t | t in db.contractVersions
        ensures false
      {
        assert HasEntry(db, Contract(t, db.contractVersions[t]));
      }
      assert db.contractVersions == map[];
    }
  }

  // ---- Order of lines -----------------------------------------------------------------------

  function RemoveAt<T>(s: seq<T>, k: nat): (r: seq<T>)
    requires k < |s|
    ensures |r| == |s| - 1
  {
    s[..k] + s[k + 1..]
  }

  lemma RemoveOne<T>(s: seq<T>, k: nat)
    requires k < |s|
    ensures multiset(s) == multiset(RemoveAt(s, k)) + multiset{s[k]}
  {
    assert s == s[..k] + [s[k]] + s[k + 1..];
  }

  lemma Cancel<T>(x: multiset<T>, y: multiset<T>, e: T)
    requires x + multiset{e} == y + multiset{e}
    ensures x == y
  {
    forall t
      ensures x[t] == y[t]
    {
      assert (x + multiset{e})[t] == (y + multiset{e})[t];
    }
  }

  lemma EntriesWithout(lines: seq<string>, k: nat)
    requires k < |lines|
    ensures Entries(RemoveAt(lines, k)) == RemoveAt(Entries(lines), k)
  {
    hide Parse;
  }

  lemma {:induction false} PermutedEntries(a: seq<string>, b: seq<string>)
    requires multiset(a) == multiset(b)
    ensures multiset(Entries(a)) == multiset(Entries(b))
    decreases |a|
  {
    hide Parse, RemoveAt;
    if a == [] {
      assert |multiset(b)| == 0;
    } else {
      assert a[0] in multiset(b);
      var k :| 0 <= k < |b| && b[k] == a[0];
      RemoveOne(a, 0);
      RemoveOne(b, k);
      Cancel(multiset(RemoveAt(a, 0)), multiset(RemoveAt(b, k)), a[0]);
      PermutedEntries(RemoveAt(a, 0), RemoveAt(b, k));
      RemoveOne(Entries(a), 0);
      RemoveOne(Entries(b), k);
      EntriesWithout(a, 0);
      EntriesWithout(b, k);
    }
  }

  // Any reordering of the lines of a file reads as the same database, or fails as well.
  lemma LineOrderDoesNotMatter(a: seq<string>, b: seq<string>)
    requires multiset(a) == multiset(b)
    ensures ReadLines(a).Ok? <==> ReadLines(b).Ok?
    ensures ReadLines(a).Ok? ==> ReadLines(a) == ReadLines(b)
  {
    hide Denotes;
    PermutedEntries(a, b);
    if ReadLines(a).Ok? {
      ReadsExactlyDenoted(a, ReadLines(a).db);
      ReadsExactlyDenoted(b, ReadLines(a).db);
    }
    if ReadLines(b).Ok? {
      ReadsExactlyDenoted(a, ReadLines(b).db);
      ReadsExactlyDenoted(b, ReadLines(b).db);
    }
  }

  // ---- Round trip ---------------------------------------------------------------------------

  predicate WellFormedEntry(name: string, info: ContractVersion) {
    && NoSpace(name) && name != GETH
    && IsToken(info.hash) && IsToken(info.abiPath) && IsToken(info.binaryPath)
  }

  predicate WellFormed(db: IntegratedVersion) {
    && IsToken(db.gethVersion)
    && forall n :: n in db.contractVersions ==> WellFormedEntry(n, db.contractVersions[n])
  }

  lemma {:induction false} TokenEnds(token: string, rest: string)
    requires NoSpace(token) && (rest == "" || IsSpace(rest[0]))
    ensures TokenLength(token + rest) == |token|
  {
    if token == "" {
      assert token + rest == rest;
    } else {
      TokenEnds(token[1..], rest);
      assert (token + rest)[1..] == token[1..] + rest;
    }
  }

  lemma FirstField(token: string, rest: string)
    requires IsToken(token) && (rest == "" || IsSpace(rest[0]))
    ensures Fields(token + rest) == [token] + Fields(rest)
  {
    TokenEnds(token, rest);
    assert (token + rest)[|token|..] == rest && (token + rest)[..|token|] == token;
  }

  lemma SkipSpace(rest: string)
    ensures Fields(" " + rest) == Fields(rest)
  {
    assert (" " + rest)[1..] == rest;
  }

  lemma LastField(token: string)
    requires IsToken(token)
    ensures Fields(token) == [token]
  {
    FirstField(token, "");
    assert token + "" == token;
  }

  lemma ParseGethLine(version: string)
    requires IsToken(version)
    ensures Parse(GethLine(version)) == Geth(version)
  {
    FirstField(GETH + ":", " " + version);
    SkipSpace(version);
    LastField(version);
    assert GethLine(version) == (GETH + ":") + (" " + version);
    assert (GETH + ":")[..|GETH|] == GETH;
  }

  lemma FieldsOfContractLine(name: string, info: ContractVersion)
    requires WellFormedEntry(name, info)
    ensures Fields(ContractLine(name, info)) == [name + ":", info.abiPath, info.binaryPath, info.hash]
  {
    hide Fields, IsSpace;
    LastField(info.hash);
    SpaceIsSpace();
    var tail := info.binaryPath + (" " + info.hash);
    SkipSpace(info.hash);
    FirstField(info.binaryPath, " " + info.hash);
    SkipSpace(tail);
    FirstField(info.abiPath, " " + tail);
    var rest := info.abiPath + (" " + tail);
    SkipSpace(rest);
    FirstField(name + ":", " " + rest);
    assert ContractLine(name, info) == (name + ":") + (" " + rest);
  }

  lemma SpaceIsSpace()
    ensures IsSpace(' ') && !IsSpace(':')
  {
  }

  lemma ParseContractLine(name: string, info: ContractVersion)
    requires WellFormedEntry(name, info)
    ensures Parse(ContractLine(name, info)) == Contract(name, info)
  {
    FieldsOfContractLine(name, info);
    assert (name + ":")[..|name|] == name;
  }

  // ---- Lines of a written file --------------------------------------------------------------

  lemma {:induction false} LineEnds(line: string, rest: string)
    requires '\n' !in line
    ensures LineLength(line + "\n" + rest) == |line|
  {
    if line == "" {
      assert line + "\n" + rest == "\n" + rest;
    } else {
      LineEnds(line[1..], rest);
      assert (line + "\n" + rest)[1..] == line[1..] + "\n" + rest;
    }
  }

  lemma FirstLine(line: string, rest: string)
    requires '\n' !in line
    ensures Lines(line + "\n" + rest) == [DropCR(line)] + Lines(rest)
  {
    LineEnds(line, rest);
    var text := line + "\n" + rest;
    assert text[..|line|] == line && text[|line| + 1..] == rest;
  }

  // The lines written for some names.
  function ContractLines(names: seq<string>, m: map<string, ContractVersion>): (lines: seq<string>)
    requires forall n :: n in names ==> n in m
    ensures |lines| == |names| && forall i :: 0 <= i < |names| ==> lines[i] == ContractLine(names[i], m[names[i]])
  {
    seq(|names|, i requires 0 <= i < |names| => ContractLine(names[i], m[names[i]]))
  }

  lemma CleanLine(line: string)
    requires line != "" && '\n' !in line && !IsSpace(line[|line| - 1])
    ensures DropCR(line) == line
  {
  }

  lemma ContractLineIsClean(name: string, info: ContractVersion)
    requires WellFormedEntry(name, info)
    ensures '\n' !in ContractLine(name, info) && DropCR(ContractLine(name, info)) == ContractLine(name, info)
  {
    assert forall t: string :: NoSpace(t) ==> '\n' !in t;
    var line := ContractLine(name, info);
    assert line[|line| - 1] == info.hash[|info.hash| - 1];
    CleanLine(line);
  }

  lemma {:induction false} LinesOfWritten(names: seq<string>, m: map<string, ContractVersion>)
    requires forall n :: n in names ==> n in m && WellFormedEntry(n, m[n])
    ensures Lines(Written(names, m)) == ContractLines(names, m)
  {
    hide ContractLine, WellFormedEntry, Lines;
    if names == [] {
      NoLines();
    } else {
      var rest := names[1..];
      LinesOfWritten(rest, m);
      ContractLineIsClean(names[0], m[names[0]]);
      FirstLine(ContractLine(names[0], m[names[0]]), Written(rest, m));
      assert ContractLines(names, m) == [ContractLine(names[0], m[names[0]])] + ContractLines(rest, m);
    }
  }

  lemma NoLines()
    ensures Lines("") == []
  {
  }

  lemma LinesOfText(db: IntegratedVersion)
    requires WellFormed(db)
    ensures var names := SortedKeys(db.contractVersions.Keys);
            && (forall n :: n in names <==> n in db.contractVersions)
            && Lines(WriteText(db)) == [GethLine(db.gethVersion)] + ContractLines(names, db.contractVersions)
  {
    hide Lines, WellFormedEntry, Written, SortedKeys, DropCR;
    var names := SortedKeys(db.contractVersions.Keys);
    assert forall n :: n in names <==> n in Elements(names);
    LinesOfWritten(names, db.contractVersions);
    var line := GethLine(db.gethVersion);
    assert '\n' !in line by { assert forall t: string :: NoSpace(t) ==> '\n' !in t; }
    assert line[|line| - 1] == db.gethVersion[|db.gethVersion| - 1];
    CleanLine(line);
    FirstLine(line, Written(names, db.contractVersions));
  }

  function ContractsOf(names: seq<string>, m: map<string, ContractVersion>): (es: seq<Entry>)
    requires forall n :: n in names ==> n in m
    ensures |es| == |names| && forall i :: 0 <= i < |es| ==> es[i] == Contract(names[i], m[names[i]])
  {
    seq(|names|, i requires 0 <= i < |names| => Contract(names[i], m[names[i]]))
  }

  lemma EntriesOfLines(version: string, names: seq<string>, m: map<string, ContractVersion>)
    requires IsToken(version) && forall n :: n in names ==> n in m && WellFormedEntry(n, m[n])
    ensures Entries([GethLine(version)] + ContractLines(names, m)) == [Geth(version)] + ContractsOf(names, m)
  {
    hide WellFormedEntry, ContractLine, GethLine, Parse, IsToken;
    ParseGethLine(version);
    forall i | 0 <= i < |names|
      ensures Parse(ContractLines(names, m)[i]) == ContractsOf(names, m)[i]
    {
      ParseContractLine(names[i], m[names[i]]);
    }
  }

  // Each entry of a database is on one line of its file.
  lemma WrittenDenotes(db: IntegratedVersion)
    requires WellFormed(db)
    ensures Denotes(multiset(Entries(Lines(WriteText(db)))), db)
  {
    hide Lines, WellFormedEntry, Denotes, WriteText, SortedKeys, Before, GethLine, ContractLine;
    LinesOfText(db);
    var names := SortedKeys(db.contractVersions.Keys);
    EntriesOfLines(db.gethVersion, names, db.contractVersions);
    NamesDistinct(names);
    DenotesAll(db, names);
  }

  lemma NamesDistinct(names: seq<string>)
    requires Increasing(Before, names)
    ensures Distinct(names)
  {
    BeforeIsOrder();
  }

  lemma {:induction false} ContractsOnce(names: seq<string>, m: map<string, ContractVersion>)
    requires Distinct(names) && forall n :: n in names ==> n in m
    ensures forall e :: multiset(ContractsOf(names, m))[e]
                     == if e.Contract? && e.topic in names && m[e.topic] == e.info then 1 else 0
  {
    if names != [] {
      var n := |names| - 1;
      ContractsOnce(names[..n], m);
      assert ContractsOf(names, m) == ContractsOf(names[..n], m) + [Contract(names[n], m[names[n]])];
      assert names == names[..n] + [names[n]];
    }
  }

  lemma DenotesAll(db: IntegratedVersion, names: seq<string>)
    requires Distinct(names) && (forall n :: n in names <==> n in db.contractVersions) && db.gethVersion != ""
    ensures Denotes(multiset([Geth(db.gethVersion)] + ContractsOf(names, db.contractVersions)), db)
  {
    ContractsOnce(names, db.contractVersions);
  }

  // ---- What can be read ---------------------------------------------------------------------

  // Whatever is read has names without spaces and fields that are tokens.
  lemma {:induction false} ReadIsWellFormed(lines: seq<string>)
    requires ReadLines(lines).Ok?
    ensures var db := ReadLines(lines).db;
            && NoSpace(db.gethVersion)
            && forall n :: n in db.contractVersions ==> WellFormedEntry(n, db.contractVersions[n])
  {
    if lines != [] {
      ReadIsWellFormed(lines[..|lines| - 1]);
      ParsedIsWellFormed(lines[|lines| - 1]);
    }
  }

  lemma ParsedIsWellFormed(line: string)
    ensures match Parse(line)
            case Geth(version) => IsToken(version)
            case Contract(topic, info) => WellFormedEntry(topic, info)
            case _ => true
  {
    var f := Fields(line);
    if f != [] {
      assert IsToken(f[0]);
    }
  }

  // A file whose first line is for the geth version has one.
  lemma {:induction false} FirstLineGivesVersion(lines: seq<string>)
    requires ReadLines(lines).Ok? && lines != [] && !Parse(lines[0]).Contract?
    ensures ReadLines(lines).db.gethVersion != ""
  {
    hide Parse;
    var n := |lines| - 1;
    if n > 0 {
      FirstLineGivesVersion(lines[..n]);
    } else {
      ParsedIsWellFormed(lines[0]);
      assert ReadLines(lines[..0]) == Ok(EMPTY);
    }
  }

  lemma {:induction false} LineLengthAtLeast(a: string, b: string)
    requires '\n' !in a
    ensures LineLength(a + b) >= |a|
  {
    if a != "" {
      LineLengthAtLeast(a[1..], b);
      assert (a + b)[1..] == a[1..] + b;
    }
  }

  // The first line of a written file is for the geth version, whatever the version is.
  lemma WrittenFirstLine(db: IntegratedVersion)
    ensures Lines(WriteText(db)) != [] && !Parse(Lines(WriteText(db))[0]).Contract?
  {
    hide Written, SortedKeys, Fields, IsSpace;
    var topic := GETH + ":";
    var text := WriteText(db);
    var more := text[|topic| + 1..];
    assert text == topic + " " + more;
    LineLengthAtLeast(topic + " ", more);
    var n := LineLength(text);
    var line := DropCR(text[..n]);
    assert text[..n] == topic + " " + more[..n - |topic| - 1];
    assert |line| >= |topic| + 1;
    assert line == topic + line[|topic|..] && line[|topic|] == ' ';
    GethTopicLine(line[|topic|..]);
  }

  lemma GethTopicLine(rest: string)
    requires rest != "" && rest[0] == ' '
    ensures !Parse(GETH + ":" + rest).Contract?
  {
    FirstField(GETH + ":", rest);
    assert (GETH + ":")[..|GETH|] == GETH;
  }

  // Reading a written file gives back the database if and only if the database is well formed:
  // a geth version, names and fields without white space, no empty field, and no package named
  // GETH_VERSION.
  lemma RoundTripIffWellFormed(db: IntegratedVersion)
    ensures ReadLines(Lines(WriteText(db))) == Ok(db) <==> WellFormed(db)
  {
    hide Lines, WriteText, Denotes, ReadLines, WellFormedEntry, Parse;
    var lines := Lines(WriteText(db));
    if WellFormed(db) {
      WrittenDenotes(db);
      ReadsExactlyDenoted(lines, db);
    }
    if ReadLines(lines) == Ok(db) {
      ReadIsWellFormed(lines);
      WrittenFirstLine(db);
      FirstLineGivesVersion(lines);
    }
  }

  // An empty path of a compiled file, which the record allows, is such a failure.
  lemma EmptyBinaryPathIsNotReadBack(db: IntegratedVersion, name: string)
    requires name in db.contractVersions && db.contractVersions[name].binaryPath == ""
    ensures ReadLines(Lines(WriteText(db))) != Ok(db)
  {
    hide Lines, WriteText, ReadLines;
    RoundTripIffWellFormed(db);
  }

  // ---- What the texts mean ------------------------------------------------------------------

  predicate AsciiSpace(c: char) {
    c == '\t' || c == '\n' || c == '\U{0B}' || c == '\U{0C}' || c == '\r' || c == ' '
  }

  lemma AsciiSpaces(c: char)
    requires c < '\U{80}'
    ensures IsSpace(c) <==> AsciiSpace(c)
  {
  }

  // Fields are separated by white space of any kind and amount.
  lemma FieldsSplit(token: string, c: char, rest: string)
    requires AsciiSpace(c)
    ensures Fields([c] + rest) == Fields(rest)
    ensures IsToken(token) ==> Fields(token + [c] + rest) == [token] + Fields(rest) && Fields(token) == [token]
  {
    assert ([c] + rest)[1..] == rest;
    if IsToken(token) {
      FirstField(token, [c] + rest);
      assert token + ([c] + rest) == token + [c] + rest;
      LastField(token);
    }
  }

  // What one more line does, in terms of its fields: it makes the reader panic, it is refused, or it
  // enters the geth version or one package.
  lemma OneMoreLine(lines: seq<string>, line: string)
    requires ReadLines(lines).Ok?
    ensures var f, db := Fields(line), ReadLines(lines).db;
            ReadLines(lines + [line]) ==
              if |f| == 0 then Panic
              else if f[0][|f[0]| - 1] != ':' then Error
              else if f[0] == "GETH_VERSION:" then
                if |f| == 2 && db.gethVersion == "" then Ok(IntegratedVersion(f[1], db.contractVersions)) else Error
              else if |f| == 4 && f[0][..|f[0]| - 1] !in db.contractVersions then
                Ok(IntegratedVersion(
                     db.gethVersion,
                     db.contractVersions[f[0][..|f[0]| - 1] :=
                       ContractVersion(hash := f[3], abiPath := f[1], binaryPath := f[2])]))
              else Error
  {
    hide Fields;
    assert (lines + [line])[..|lines|] == lines;
    var f := Fields(line);
    if |f| > 0 && f[0][|f[0]| - 1] == ':' {
      assert f[0] == f[0][..|f[0]| - 1] + ":";
      assert "GETH_VERSION:"[..12] == "GETH_VERSION";
    }
  }

  // A written file, for two packages: every field in its place, and the packages in increasing
  // order of names.
  lemma TwoPackagesWritten(version: string, j: string, first: ContractVersion, k: string, second: ContractVersion)
    requires Precedes(j, k)
    ensures WriteText(IntegratedVersion(version, map[k := second, j := first]))
         == "GETH_VERSION: " + version + "\n"
            + (j + ": " + first.abiPath + " " + first.binaryPath + " " + first.hash + "\n")
            + (k + ": " + second.abiPath + " " + second.binaryPath + " " + second.hash + "\n")
  {
    hide Before, Precedes;
    var m := map[k := second, j := first];
    BeforeMeans(j, k);
    BeforeIsOrder();
    assert Elements([j, k]) == m.Keys;
    SortedKeysUnique([j, k], m.Keys);
    assert [j, k][1..] == [k];
    assert Written([k], m) == ContractLine(k, second) + "\n";
    assert Written([j, k], m) == ContractLine(j, first) + "\n" + Written([k], m);
  }
}
