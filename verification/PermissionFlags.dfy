/**
 * Permission options, printed and parsed back (cli/args/flags.rs). The option parser is a library;
 * what is modelled of it is what the option table asks of it: `--name` or `--name=value`, values
 * split at commas, every piece validated, no option given twice.
 */
module PermissionFlags {
  import opened Wrappers
  import FlagsNet

  datatype Kind = Read | Write | Net | Env | Run | Sys | Ffi

  datatype ListFlag = Allow(kind: Kind) | Deny(kind: Kind) | IgnoreCertErrors

  datatype Name = ListName(flag: ListFlag) | AllowHrtime | DenyHrtime | AllowAll

  /** The permission part of the source's `Flags`; an absent list is `None` there. */
  datatype Perms = Perms(allowAll: bool, lists: map<ListFlag, seq<string>>, allowHrtime: bool, denyHrtime: bool)

  const DEFAULT := Perms(false, map[], false, false)

  /** The order in which lists are printed. */
  const ORDER: seq<ListFlag> :=
    [ Allow(Read), Deny(Read), Allow(Write), Deny(Write), Allow(Net), Deny(Net), IgnoreCertErrors,
      Allow(Env), Deny(Env), Allow(Run), Deny(Run), Allow(Sys), Deny(Sys), Allow(Ffi), Deny(Ffi)
    ]

  // ---- Names ----

  function KindText(kind: Kind): string {
    match kind
    case Read => "read"
    case Write => "write"
    case Net => "net"
    case Env => "env"
    case Run => "run"
    case Sys => "sys"
    case Ffi => "ffi"
  }

  function Text(name: Name): string {
    match name
    case ListName(Allow(kind)) => "allow-" + KindText(kind)
    case ListName(Deny(kind)) => "deny-" + KindText(kind)
    case ListName(IgnoreCertErrors) => "unsafely-ignore-certificate-errors"
    case AllowHrtime => "allow-hrtime"
    case DenyHrtime => "deny-hrtime"
    case AllowAll => "allow-all"
  }

  // ---- Printing ----

  function Join(l: seq<string>): string
    requires l != []
  {
    if |l| == 1 then l[0] else l[0] + "," + Join(l[1..])
  }

  function PrintList(f: ListFlag, l: seq<string>): string {
    "--" + Text(ListName(f)) + (if l == [] then "" else "=" + Join(l))
  }

  function PrintLists(flags: seq<ListFlag>, lists: map<ListFlag, seq<string>>): seq<string> {
    if flags == [] then []
    else if flags[0] in lists then [PrintList(flags[0], lists[flags[0]])] + PrintLists(flags[1..], lists)
    else PrintLists(flags[1..], lists)
  }

  function PrintSwitches(p: Perms): seq<string> {
    (if p.allowHrtime then ["--" + Text(AllowHrtime)] else []) +
    (if p.denyHrtime then ["--" + Text(DenyHrtime)] else [])
  }

  function Print(p: Perms): seq<string> {
    if p.allowAll then ["--" + Text(AllowAll)]
    else PrintLists(ORDER, p.lists) + PrintSwitches(p)
  }

  // ---- Parsing ----

  /** Splits at every comma. */
  function Split(s: string): (r: seq<string>)
    ensures r != []
  {
    if s == "" then [""]
    else if s[0] == ',' then [""] + Split(s[1..])
    else
      var rest := Split(s[1..]);
      [[s[0]] + rest[0]] + rest[1..]
  }

  const SYS_KINDS := { "hostname", "osRelease", "osUptime", "loadavg", "networkInterfaces",
                      "systemMemoryInfo", "uid", "gid", "cpus" }

  predicate NetLike(f: ListFlag) {
    f in {Allow(Net), Deny(Net), IgnoreCertErrors}
  }

  /** The value parsers of the option table. */
  predicate Accepts(lib: FlagsNet.NetLib, f: ListFlag, entry: string) {
    if NetLike(f) then FlagsNet.Validates(lib, entry)
    else if f in {Allow(Env), Deny(Env)} then entry != "" && '=' !in entry && '\0' !in entry
    else if f in {Allow(Sys), Deny(Sys)} then entry in SYS_KINDS
    else true
  }

  predicate AllAccepted(lib: FlagsNet.NetLib, f: ListFlag, l: seq<string>) {
    forall i :: 0 <= i < |l| ==> Accepts(lib, f, l[i])
  }

  datatype Matches = Matches(lists: map<ListFlag, seq<string>>, switches: set<Name>)

  const NO_MATCHES := Matches(map[], {})

  /** The part before the first equals sign, and the part after it if there is one. */
  function CutEq(s: string): (string, Option<string>) {
    if s == "" then ("", None)
    else if s[0] == '=' then ("", Some(s[1..]))
    else
      var (name, value) := CutEq(s[1..]);
      ([s[0]] + name, value)
  }

  function LookupList(flags: seq<ListFlag>, text: string): Option<Name> {
    if flags == [] then None
    else if Text(ListName(flags[0])) == text then Some(ListName(flags[0]))
    else LookupList(flags[1..], text)
  }

  function Lookup(text: string): Option<Name> {
    if text == Text(AllowHrtime) then Some(AllowHrtime)
    else if text == Text(DenyHrtime) then Some(DenyHrtime)
    else if text == Text(AllowAll) then Some(AllowAll)
    else LookupList(ORDER, text)
  }

  function Pieces(value: Option<string>): seq<string> {
    match value
    case None => []
    case Some(text) => Split(text)
  }

  function MatchNamed(lib: FlagsNet.NetLib, m: Matches, name: Name, value: Option<string>): Option<Matches> {
    if name.ListName? then
      if name.flag in m.lists || !AllAccepted(lib, name.flag, Pieces(value)) then None
      else Some(m.(lists := m.lists[name.flag := Pieces(value)]))
    else
      if name in m.switches || value.Some? then None
      else Some(m.(switches := m.switches + {name}))
  }

  function MatchOne(lib: FlagsNet.NetLib, m: Matches, arg: string): Option<Matches> {
    if !("--" <= arg) then None
    else
      var (text, value) := CutEq(arg[2..]);
      match Lookup(text)
      case None => None
      case Some(name) => MatchNamed(lib, m, name, value)
  }

  function MatchAll(lib: FlagsNet.NetLib, m: Matches, args: seq<string>): Option<Matches>
    decreases args
  {
    if args == [] then Some(m)
    else
      match MatchOne(lib, m, args[0])
      case None => None
      case Some(next) => MatchAll(lib, next, args[1..])
  }

  /** What a list becomes; `None` is a panic of the source. */
  function Stored(lib: FlagsNet.NetLib, f: ListFlag, entries: seq<string>): Option<seq<string>> {
    if NetLike(f) then FlagsNet.Expand(lib, entries) else Some(entries)
  }

  const ALLOWED_EVERYTHING: map<ListFlag, seq<string>> :=
    map[Allow(Read) := [], Allow(Env) := [], Allow(Net) := [], Allow(Run) := [],
        Allow(Write) := [], Allow(Sys) := [], Allow(Ffi) := []]

  function WithAllowAll(p: Perms): Perms {
    p.(allowAll := true, lists := p.lists + ALLOWED_EVERYTHING, allowHrtime := true)
  }

  predicate NoPanic(lib: FlagsNet.NetLib, m: Matches) {
    forall f :: f in m.lists ==> Stored(lib, f, m.lists[f]).Some?
  }

  function StoredLists(lib: FlagsNet.NetLib, m: Matches): map<ListFlag, seq<string>>
    requires NoPanic(lib, m)
  {
    map f | f in m.lists :: Stored(lib, f, m.lists[f]).value
  }

  function StoredFor(lib: FlagsNet.NetLib, m: Matches, flags: seq<ListFlag>): map<ListFlag, seq<string>>
    requires NoPanic(lib, m)
  {
    map f | f in m.lists && f in flags :: Stored(lib, f, m.lists[f]).value
  }

  function Assigned(lib: FlagsNet.NetLib, m: Matches, p: Perms): Perms
    requires NoPanic(lib, m)
  {
    var q := p.(lists := p.lists + StoredLists(lib, m),
                allowHrtime := p.allowHrtime || AllowHrtime in m.switches,
                denyHrtime := p.denyHrtime || DenyHrtime in m.switches);
    if AllowAll in m.switches then WithAllowAll(q) else q
  }

  lemma StoredForNext(lib: FlagsNet.NetLib, m: Matches, flags: seq<ListFlag>, f: ListFlag)
    requires NoPanic(lib, m)
    ensures StoredFor(lib, m, flags + [f]) ==
              if f in m.lists then StoredFor(lib, m, flags)[f := Stored(lib, f, m.lists[f]).value]
              else StoredFor(lib, m, flags)
  {
  }

  lemma MergeNext(base: map<ListFlag, seq<string>>, added: map<ListFlag, seq<string>>, f: ListFlag, l: seq<string>)
    ensures base + added[f := l] == (base + added)[f := l]
  {
  }

  // ---- Names can be told apart ----

  function Position(f: ListFlag): (i: nat)
    ensures i < |ORDER| && ORDER[i] == f
  {
    match f
    case Allow(Read) => 0
    case Deny(Read) => 1
    case Allow(Write) => 2
    case Deny(Write) => 3
    case Allow(Net) => 4
    case Deny(Net) => 5
    case IgnoreCertErrors => 6
    case Allow(Env) => 7
    case Deny(Env) => 8
    case Allow(Run) => 9
    case Deny(Run) => 10
    case Allow(Sys) => 11
    case Deny(Sys) => 12
    case Allow(Ffi) => 13
    case Deny(Ffi) => 14
  }

  lemma OrderIsComplete()
    ensures forall f: ListFlag :: f in ORDER
  {
    forall f: ListFlag ensures f in ORDER {
      assert ORDER[Position(f)] == f;
    }
  }

  predicate Distinct(flags: seq<ListFlag>) {
    forall i, j :: 0 <= i < j < |flags| ==> flags[i] != flags[j]
  }

  lemma OrderIsDistinct()
    ensures Distinct(ORDER)
  {
    assert forall i :: 0 <= i < |ORDER| ==> Position(ORDER[i]) == i;
  }

  lemma KindTextsDiffer(a: Kind, b: Kind)
    requires KindText(a) == KindText(b)
    ensures a == b
  {
  }

  lemma TextsDiffer(a: Name, b: Name)
    requires Text(a) == Text(b)
    ensures a == b
  {
    var s, t := Text(a), Text(b);
    assert s[0] == t[0] && |s| == |t|;
    if s[0] == 'a' {
      assert s[6] == t[6];
      if a.ListName? && b.ListName? {
        assert KindText(a.flag.kind) == s[6..] == t[6..] == KindText(b.flag.kind);
        KindTextsDiffer(a.flag.kind, b.flag.kind);
      }
    } else if s[0] == 'd' {
      assert s[5] == t[5];
      if a.ListName? && b.ListName? {
        assert KindText(a.flag.kind) == s[5..] == t[5..] == KindText(b.flag.kind);
        KindTextsDiffer(a.flag.kind, b.flag.kind);
      }
    }
  }

  lemma {:induction false} LookupListFinds(flags: seq<ListFlag>, f: ListFlag)
    requires f in flags
    ensures LookupList(flags, Text(ListName(f))) == Some(ListName(f))
  {
    if Text(ListName(flags[0])) == Text(ListName(f)) {
      TextsDiffer(ListName(flags[0]), ListName(f));
    } else {
      LookupListFinds(flags[1..], f);
    }
  }

  lemma LookupFinds(name: Name)
    ensures Lookup(Text(name)) == Some(name)
  {
    if other: Name :| !other.ListName? && Text(name) == Text(other) {
      TextsDiffer(name, other);
    } else {
      OrderIsComplete();
      LookupListFinds(ORDER, name.flag);
    }
  }

  lemma TextHasNoEquals(name: Name)
    ensures '=' !in Text(name)
  {
    if name.ListName? && !name.flag.IgnoreCertErrors? {
      assert '=' !in KindText(name.flag.kind);
    }
  }

  lemma {:induction false} CutAtFirst(name: string, rest: string)
    requires '=' !in name
    ensures CutEq(name) == (name, None)
    ensures CutEq(name + "=" + rest) == (name, Some(rest))
  {
    if name == "" {
      assert name + "=" + rest == ['='] + rest;
    } else {
      CutAtFirst(name[1..], rest);
      assert [name[0]] + name[1..] == name;
      assert (name + "=" + rest)[1..] == name[1..] + "=" + rest;
    }
  }

  lemma {:induction false} AfterDashes(lib: FlagsNet.NetLib, m: Matches, rest: string, text: string, value: Option<string>, name: Name)
    requires CutEq(rest) == (text, value) && Lookup(text) == Some(name)
    ensures MatchOne(lib, m, "--" + rest) == MatchNamed(lib, m, name, value)
  {
  }

  lemma {:induction false} MatchesBareText(lib: FlagsNet.NetLib, m: Matches, text: string, name: Name)
    requires '=' !in text && Lookup(text) == Some(name)
    ensures MatchOne(lib, m, "--" + text) == MatchNamed(lib, m, name, None)
  {
    CutAtFirst(text, "");
    AfterDashes(lib, m, text, text, None, name);
  }

  lemma {:induction false} MatchesText(lib: FlagsNet.NetLib, m: Matches, text: string, name: Name, value: string)
    requires '=' !in text && Lookup(text) == Some(name)
    ensures MatchOne(lib, m, "--" + text + "=" + value) == MatchNamed(lib, m, name, Some(value))
  {
    var rest := text + "=" + value;
    CutAtFirst(text, value);
    AfterDashes(lib, m, rest, text, Some(value), name);
    assert "--" + text + "=" + value == "--" + rest;
  }

  /** Printed options are recognised. */
  lemma MatchesNamed(lib: FlagsNet.NetLib, m: Matches, name: Name, value: string)
    ensures MatchOne(lib, m, "--" + Text(name)) == MatchNamed(lib, m, name, None)
    ensures MatchOne(lib, m, "--" + Text(name) + "=" + value) == MatchNamed(lib, m, name, Some(value))
  {
    LookupFinds(name);
    TextHasNoEquals(name);
    MatchesBareText(lib, m, Text(name), name);
    MatchesText(lib, m, Text(name), name, value);
  }

  // ---- The source's methods ----

  /** Host lists are expanded, others kept. */
  method Store(lib: FlagsNet.NetLib, f: ListFlag, entries: seq<string>) returns (stored: seq<string>)
    requires Stored(lib, f, entries).Some?
    ensures Stored(lib, f, entries) == Some(stored)
  {
    if NetLike(f) {
      var expanded := FlagsNet.Parse(lib, entries);
      return expanded.value;
    }
    stored := entries;
  }

  class Flags {
    var allowAll: bool
    var lists: map<ListFlag, seq<string>>
    var allowHrtime: bool
    var denyHrtime: bool

    function Value(): Perms
      reads this
    {
      Perms(allowAll, lists, allowHrtime, denyHrtime)
    }

    constructor ()
      ensures Value() == DEFAULT
    {
      allowAll, lists, allowHrtime, denyHrtime := false, map[], false, false;
    }

    /** The list part of `to_permission_args`, its fifteen like blocks as one loop over a table. */
    method PushLists(flags: seq<ListFlag>) returns (args: seq<string>)
      ensures args == PrintLists(flags, lists)
    {
      args := [];
      for k := 0 to |flags|
        invariant PrintLists(flags, lists) == args + PrintLists(flags[k..], lists)
      {
        assert flags[k..][1..] == flags[k + 1..];
        if flags[k] in lists {
          args := args + [PrintList(flags[k], lists[flags[k]])];
        }
      }
    }

    /** `to_permission_args`. */
    method ToPermissionArgs() returns (args: seq<string>)
      ensures args == Print(Value())
    {
      if allowAll {
        return ["--" + Text(AllowAll)];
      }
      args := PushLists(ORDER);
      if allowHrtime {
        args := args + ["--" + Text(AllowHrtime)];
      }
      if denyHrtime {
        args := args + ["--" + Text(DenyHrtime)];
      }
    }

    /** `allow_all`. */
    method SetAllowAll()
      modifies this
      ensures Value() == WithAllowAll(old(Value()))
    {
      allowAll, allowHrtime := true, true;
      lists := lists + ALLOWED_EVERYTHING;
    }

    method AssignLists(lib: FlagsNet.NetLib, m: Matches, flags: seq<ListFlag>)
      requires NoPanic(lib, m)
      modifies `lists
      ensures lists == old(lists) + StoredFor(lib, m, flags)
    {
      for k := 0 to |flags|
        invariant lists == old(lists) + StoredFor(lib, m, flags[..k])
      {
        var f := flags[k];
        assert flags[..k + 1] == flags[..k] + [f];
        StoredForNext(lib, m, flags[..k], f);
        if f in m.lists {
          var stored := Store(lib, f, m.lists[f]);
          MergeNext(old(lists), StoredFor(lib, m, flags[..k]), f, stored);
          lists := lists[f := stored];
        }
      }
      assert flags[..|flags|] == flags;
    }

    /** `permission_args_parse`. */
    method PermissionArgsParse(lib: FlagsNet.NetLib, m: Matches)
      requires NoPanic(lib, m)
      modifies this
      ensures Value() == Assigned(lib, m, old(Value()))
    {
      AssignLists(lib, m, ORDER);
      OrderIsComplete();
      assert StoredFor(lib, m, ORDER) == StoredLists(lib, m);
      allowHrtime := allowHrtime || AllowHrtime in m.switches;
      denyHrtime := denyHrtime || DenyHrtime in m.switches;
      if AllowAll in m.switches {
        SetAllowAll();
      }
    }
  }

  // ---- Splitting undoes joining ----

  predicate CommaFree(l: seq<string>) {
    forall i :: 0 <= i < |l| ==> ',' !in l[i]
  }

  lemma {:induction false} SplitIsCommaFree(s: string)
    ensures CommaFree(Split(s))
  {
    if s != "" {
      SplitIsCommaFree(s[1..]);
    }
  }

  lemma {:induction false} SplitOne(s: string, rest: string)
    requires ',' !in s
    ensures Split(s) == [s]
    ensures Split(s + "," + rest) == [s] + Split(rest)
  {
    if s == "" {
      assert s + "," + rest == [','] + rest;
    } else {
      SplitOne(s[1..], rest);
      assert (s + "," + rest)[1..] == s[1..] + "," + rest;
      assert [s[0]] + s[1..] == s;
    }
  }

  lemma {:induction false} SplitUndoesJoin(l: seq<string>)
    requires l != [] && CommaFree(l)
    ensures Split(Join(l)) == l
  {
    if |l| == 1 {
      SplitOne(l[0], "");
    } else {
      SplitUndoesJoin(l[1..]);
      SplitOne(l[0], Join(l[1..]));
    }
  }

  /** What is read of a printed list. */
  function ReadBack(l: seq<string>): seq<string> {
    if l == [] then [] else Split(Join(l))
  }

  lemma ReadBackExactly(l: seq<string>)
    ensures ReadBack(l) == l <==> CommaFree(l)
    ensures CommaFree(ReadBack(l))
  {
    if l != [] {
      SplitIsCommaFree(Join(l));
      if CommaFree(l) {
        SplitUndoesJoin(l);
      }
    }
  }

  // ---- One list ----

  lemma PrintedBare(f: ListFlag)
    ensures PrintList(f, []) == "--" + Text(ListName(f))
  {
  }

  lemma PrintedValued(f: ListFlag, l: seq<string>)
    requires l != []
    ensures PrintList(f, l) == "--" + Text(ListName(f)) + "=" + Join(l)
  {
  }

  function WithList(m: Matches, f: ListFlag, l: seq<string>): Matches {
    m.(lists := m.lists[f := ReadBack(l)])
  }

  lemma MatchesPrinted(lib: FlagsNet.NetLib, m: Matches, f: ListFlag, l: seq<string>)
    requires f !in m.lists
    ensures MatchOne(lib, m, PrintList(f, l)) ==
              if AllAccepted(lib, f, ReadBack(l)) then Some(WithList(m, f, l)) else None
  {
    if l == [] {
      PrintedBare(f);
      MatchesNamed(lib, m, ListName(f), "");
    } else {
      PrintedValued(f, l);
      MatchesNamed(lib, m, ListName(f), Join(l));
    }
  }

  lemma {:induction false} ExpandOfValid(lib: FlagsNet.NetLib, entries: seq<string>)
    ensures FlagsNet.Expand(lib, entries).Some? <==>
              forall i :: 0 <= i < |entries| ==> FlagsNet.Validates(lib, entries[i])
  {
    if entries != [] {
      ExpandOfValid(lib, entries[1..]);
      assert forall i :: 1 <= i < |entries| ==> entries[i] == entries[1..][i - 1];
    }
  }

  lemma {:induction false} ExpandIsCommaFree(lib: FlagsNet.NetLib, entries: seq<string>)
    requires CommaFree(entries) && FlagsNet.Expand(lib, entries).Some?
    ensures CommaFree(FlagsNet.Expand(lib, entries).value)
  {
    if entries != [] {
      ExpandIsCommaFree(lib, entries[1..]);
      assert CommaFree(FlagsNet.HOSTS);
      assert CommaFree(FlagsNet.ExpandOne(lib, entries[0]).value);
    }
  }

  /** An entry can be printed and read back as itself. */
  predicate ListOk(lib: FlagsNet.NetLib, f: ListFlag, l: seq<string>) {
    CommaFree(l) && AllAccepted(lib, f, l) && (NetLike(f) ==> FlagsNet.AllHosts(lib, l))
  }

  predicate ComesBack(lib: FlagsNet.NetLib, f: ListFlag, l: seq<string>) {
    AllAccepted(lib, f, ReadBack(l)) && Stored(lib, f, ReadBack(l)) == Some(l)
  }

  /** A list survives exactly when its entries are comma-free, valid and, for hosts, expanded. */
  lemma ListRestored(lib: FlagsNet.NetLib, f: ListFlag, l: seq<string>)
    requires FlagsNet.Lawful(lib)
    ensures ComesBack(lib, f, l) <==> ListOk(lib, f, l)
  {
    ReadBackExactly(l);
    if NetLike(f) {
      FlagsNet.ExpandKeepsHosts(lib, l);
      if Stored(lib, f, ReadBack(l)) == Some(l) {
        ExpandIsCommaFree(lib, ReadBack(l));
      }
    }
  }

  /** What an accepted list is stored as can be printed and read back. */
  lemma StoredIsOk(lib: FlagsNet.NetLib, f: ListFlag, entries: seq<string>)
    requires FlagsNet.Lawful(lib) && CommaFree(entries) && AllAccepted(lib, f, entries)
    ensures Stored(lib, f, entries).Some? && ListOk(lib, f, Stored(lib, f, entries).value)
  {
    if NetLike(f) {
      ExpandOfValid(lib, entries);
      ExpandIsCommaFree(lib, entries);
      FlagsNet.ExpandsToHosts(lib, entries);
    }
  }

  // ---- All lists ----

  predicate EntriesRead(lib: FlagsNet.NetLib, m: Matches) {
    forall f :: f in m.lists ==> CommaFree(m.lists[f]) && AllAccepted(lib, f, m.lists[f])
  }

  lemma MatchOneReads(lib: FlagsNet.NetLib, m: Matches, arg: string)
    requires EntriesRead(lib, m) && MatchOne(lib, m, arg).Some?
    ensures EntriesRead(lib, MatchOne(lib, m, arg).value)
  {
    var (_, value) := CutEq(arg[2..]);
    if value.Some? {
      SplitIsCommaFree(value.value);
    }
  }

  /** Whatever the arguments, matched lists hold comma-free accepted entries, so storing them cannot fail. */
  lemma {:induction false} MatchesAreRead(lib: FlagsNet.NetLib, m: Matches, args: seq<string>)
    requires EntriesRead(lib, m)
    ensures var r := MatchAll(lib, m, args); r.Some? ==> EntriesRead(lib, r.value) && NoPanic(lib, r.value)
    decreases args
  {
    if args == [] {
      forall f | f in m.lists ensures Stored(lib, f, m.lists[f]).Some? {
        if NetLike(f) {
          ExpandOfValid(lib, m.lists[f]);
        }
      }
    } else if MatchOne(lib, m, args[0]).Some? {
      MatchOneReads(lib, m, args[0]);
      MatchesAreRead(lib, MatchOne(lib, m, args[0]).value, args[1..]);
    }
  }

  /** Arguments to flags; `None` when the option parser rejects them. */
  function Parsed(lib: FlagsNet.NetLib, args: seq<string>): Option<Perms> {
    match MatchAll(lib, NO_MATCHES, args)
    case None => None
    case Some(m) =>
      MatchesAreRead(lib, NO_MATCHES, args);
      Some(Assigned(lib, m, DEFAULT))
  }

  /** The matches once the printed lists are read. */
  function ReadLists(m: Matches, flags: seq<ListFlag>, lists: map<ListFlag, seq<string>>): Matches
    decreases flags
  {
    if flags == [] then m
    else
      var next := if flags[0] in lists then WithList(m, flags[0], lists[flags[0]]) else m;
      ReadLists(next, flags[1..], lists)
  }

  lemma {:induction false} ReadListsHolds(m: Matches, flags: seq<ListFlag>, lists: map<ListFlag, seq<string>>, f: ListFlag)
    ensures var r := ReadLists(m, flags, lists);
            && r.switches == m.switches
            && (f in r.lists <==> f in m.lists || (f in flags && f in lists))
            && (f in r.lists ==> r.lists[f] == if f in flags && f in lists then ReadBack(lists[f]) else m.lists[f])
    decreases flags
  {
    if flags != [] {
      var next := if flags[0] in lists then WithList(m, flags[0], lists[flags[0]]) else m;
      ReadListsHolds(next, flags[1..], lists, f);
    }
  }

  predicate AllReadable(lib: FlagsNet.NetLib, flags: seq<ListFlag>, lists: map<ListFlag, seq<string>>) {
    forall f :: f in lists && f in flags ==> AllAccepted(lib, f, ReadBack(lists[f]))
  }

  predicate Fresh(flags: seq<ListFlag>, m: Matches) {
    forall f :: f in flags ==> f !in m.lists
  }

  lemma DistinctTail(f: ListFlag, rest: seq<ListFlag>, m: Matches)
    requires Distinct([f] + rest) && Fresh([f] + rest, m)
    ensures Distinct(rest) && f !in rest && f !in m.lists && Fresh(rest, m)
  {
    var all := [f] + rest;
    assert forall i :: 0 <= i < |rest| ==> all[i + 1] == rest[i];
    assert all[0] == f;
  }

  /** What is left of matching once the printed lists are read. */
  function AfterLists(
    lib: FlagsNet.NetLib, m: Matches, flags: seq<ListFlag>, lists: map<ListFlag, seq<string>>, tail: seq<string>)
    : Option<Matches>
  {
    if AllReadable(lib, flags, lists) then MatchAll(lib, ReadLists(m, flags, lists), tail) else None
  }

  lemma AfterListsStep(
    lib: FlagsNet.NetLib, m: Matches, f: ListFlag, rest: seq<ListFlag>, lists: map<ListFlag, seq<string>>, tail: seq<string>)
    ensures AfterLists(lib, m, [f] + rest, lists, tail) ==
              if f !in lists then AfterLists(lib, m, rest, lists, tail)
              else if AllAccepted(lib, f, ReadBack(lists[f]))
              then AfterLists(lib, WithList(m, f, lists[f]), rest, lists, tail)
              else None
  {
  }

  lemma MatchesFirst(lib: FlagsNet.NetLib, m: Matches, arg: string, rest: seq<string>)
    ensures MatchAll(lib, m, [arg] + rest) ==
              match MatchOne(lib, m, arg) {
                case None => None
                case Some(next) => MatchAll(lib, next, rest)
              }
  {
  }

  lemma PrintListsStep(f: ListFlag, rest: seq<ListFlag>, lists: map<ListFlag, seq<string>>, tail: seq<string>)
    requires f in lists
    ensures PrintLists([f] + rest, lists) + tail == [PrintList(f, lists[f])] + (PrintLists(rest, lists) + tail)
  {
    var arg, args := PrintList(f, lists[f]), PrintLists(rest, lists);
    assert ([f] + rest)[1..] == rest;
    assert PrintLists([f] + rest, lists) == [arg] + args;
    assert [arg] + args + tail == [arg] + (args + tail);
  }

  lemma MatchesPrintedFirst(
    lib: FlagsNet.NetLib, m: Matches, f: ListFlag, rest: seq<ListFlag>, lists: map<ListFlag, seq<string>>, tail: seq<string>)
    requires f in lists && f !in m.lists
    ensures MatchAll(lib, m, PrintLists([f] + rest, lists) + tail) ==
              if AllAccepted(lib, f, ReadBack(lists[f]))
              then MatchAll(lib, WithList(m, f, lists[f]), PrintLists(rest, lists) + tail)
              else None
  {
    MatchesPrinted(lib, m, f, lists[f]);
    MatchesFirst(lib, m, PrintList(f, lists[f]), PrintLists(rest, lists) + tail);
    PrintListsStep(f, rest, lists, tail);
  }

  lemma {:induction false} MatchesPrintedLists(
    lib: FlagsNet.NetLib, m: Matches, flags: seq<ListFlag>, lists: map<ListFlag, seq<string>>, tail: seq<string>)
    requires Distinct(flags) && Fresh(flags, m)
    ensures MatchAll(lib, m, PrintLists(flags, lists) + tail) == AfterLists(lib, m, flags, lists, tail)
    decreases flags
  {
    if flags == [] {
      assert PrintLists(flags, lists) + tail == tail;
    } else {
      var f, rest := flags[0], flags[1..];
      assert flags == [f] + rest;
      DistinctTail(f, rest, m);
      AfterListsStep(lib, m, f, rest, lists, tail);
      if f !in lists {
        MatchesPrintedLists(lib, m, rest, lists, tail);
      } else {
        MatchesPrintedFirst(lib, m, f, rest, lists, tail);
        MatchesPrintedLists(lib, WithList(m, f, lists[f]), rest, lists, tail);
      }
    }
  }

  lemma MatchesSwitch(lib: FlagsNet.NetLib, m: Matches, name: Name, rest: seq<string>)
    requires !name.ListName? && name !in m.switches
    ensures MatchAll(lib, m, ["--" + Text(name)] + rest) ==
              MatchAll(lib, m.(switches := m.switches + {name}), rest)
  {
    MatchesNamed(lib, m, name, "");
    MatchesFirst(lib, m, "--" + Text(name), rest);
  }

  function Switches(p: Perms): set<Name> {
    (if p.allowHrtime then {AllowHrtime} else {}) + (if p.denyHrtime then {DenyHrtime} else {})
  }

  lemma MatchesPrintedSwitches(lib: FlagsNet.NetLib, m: Matches, p: Perms)
    requires m.switches == {}
    ensures MatchAll(lib, m, PrintSwitches(p)) == Some(m.(switches := Switches(p)))
  {
    var denied := if p.denyHrtime then ["--" + Text(DenyHrtime)] else [];
    var first := if p.allowHrtime then m.(switches := {AllowHrtime}) else m;
    if p.allowHrtime {
      MatchesSwitch(lib, m, AllowHrtime, denied);
      assert m.switches + {AllowHrtime} == {AllowHrtime};
    }
    assert PrintSwitches(p) == (if p.allowHrtime then ["--" + Text(AllowHrtime)] + denied else denied);
    assert MatchAll(lib, m, PrintSwitches(p)) == MatchAll(lib, first, denied);
    if p.denyHrtime {
      MatchesSwitch(lib, first, DenyHrtime, []);
      assert denied + [] == denied;
    }
    var last := if p.denyHrtime then first.(switches := first.switches + {DenyHrtime}) else first;
    assert last.switches == Switches(p);
    assert MatchAll(lib, first, denied) == Some(last);
  }

  lemma ReadsAll(lib: FlagsNet.NetLib, flags: seq<ListFlag>, lists: map<ListFlag, seq<string>>)
    requires forall f: ListFlag :: f in flags
    ensures ReadLists(NO_MATCHES, flags, lists) == Matches(map f | f in lists :: ReadBack(lists[f]), {})
    ensures AllReadable(lib, flags, lists) <==> forall f :: f in lists ==> AllAccepted(lib, f, ReadBack(lists[f]))
  {
    var r := ReadLists(NO_MATCHES, flags, lists);
    forall f: ListFlag
      ensures (f in r.lists <==> f in lists) && (f in lists ==> r.lists[f] == ReadBack(lists[f]))
    {
      ReadListsHolds(NO_MATCHES, flags, lists, f);
    }
    ReadListsHolds(NO_MATCHES, flags, lists, IgnoreCertErrors);
    assert r.lists == map f | f in lists :: ReadBack(lists[f]);
  }

  lemma MatchesPrintedPerms(lib: FlagsNet.NetLib, p: Perms)
    requires !p.allowAll
    ensures MatchAll(lib, NO_MATCHES, Print(p)) ==
              if forall f :: f in p.lists ==> AllAccepted(lib, f, ReadBack(p.lists[f]))
              then Some(Matches(map f | f in p.lists :: ReadBack(p.lists[f]), Switches(p)))
              else None
  {
    OrderIsComplete();
    OrderIsDistinct();
    MatchesPrintedLists(lib, NO_MATCHES, ORDER, p.lists, PrintSwitches(p));
    ReadsAll(lib, ORDER, p.lists);
    MatchesPrintedSwitches(lib, ReadLists(NO_MATCHES, ORDER, p.lists), p);
  }

  // ---- The theorems ----

  /** Nothing but what `allow_all` sets: no deny list, no certificate list, no hrtime denial. */
  predicate NothingDenied(p: Perms) {
    !p.denyHrtime && IgnoreCertErrors !in p.lists && forall kind :: Deny(kind) !in p.lists
  }

  /** The flags come back from their own printing. */
  ghost predicate Restored(lib: FlagsNet.NetLib, p: Perms) {
    Parsed(lib, Print(p)) == Some(p)
  }

  lemma EverythingIsAllowed(f: ListFlag)
    ensures f in ALLOWED_EVERYTHING <==> f.Allow?
    ensures f.Allow? ==> ALLOWED_EVERYTHING[f] == []
  {
    if f.Allow? {
      match f.kind {
        case Read => case Write => case Net => case Env => case Run => case Sys => case Ffi =>
      }
    }
  }

  lemma ParsedAllowAll(lib: FlagsNet.NetLib, p: Perms)
    requires p.allowAll
    ensures Parsed(lib, Print(p)) == Some(WithAllowAll(DEFAULT))
  {
    MatchesSwitch(lib, NO_MATCHES, AllowAll, []);
    assert Print(p) == ["--" + Text(AllowAll)] + [];
    var m := NO_MATCHES.(switches := NO_MATCHES.switches + {AllowAll});
    assert MatchAll(lib, NO_MATCHES, Print(p)) == Some(m);
    assert DEFAULT.lists + StoredLists(lib, m) == DEFAULT.lists;
  }

  /** Lists as `allow_all` leaves them hold what it sets, and nothing else exactly when nothing is denied. */
  lemma AllowedLists(p: Perms)
    requires p.lists == p.lists + ALLOWED_EVERYTHING
    ensures p.lists == ALLOWED_EVERYTHING <==> forall f :: f in p.lists ==> f.Allow?
  {
    forall f: ListFlag ensures f in ALLOWED_EVERYTHING <==> f.Allow? {
      EverythingIsAllowed(f);
    }
  }

  lemma NothingDeniedIsAllowed(p: Perms)
    ensures NothingDenied(p) <==> !p.denyHrtime && forall f :: f in p.lists ==> f.Allow?
  {
    if !p.denyHrtime && (forall f :: f in p.lists ==> f.Allow?) {
      assert forall kind :: Deny(kind) !in p.lists;
    }
  }

  lemma AllowAllFixed(p: Perms)
    requires p.allowAll
    ensures p == WithAllowAll(DEFAULT) <==> p == WithAllowAll(p) && NothingDenied(p)
  {
    var back := WithAllowAll(DEFAULT);
    assert back.lists == ALLOWED_EVERYTHING;
    assert ALLOWED_EVERYTHING + ALLOWED_EVERYTHING == ALLOWED_EVERYTHING;
    if p == WithAllowAll(p) {
      AllowedLists(p);
    }
    AllowedLists(back);
    NothingDeniedIsAllowed(p);
  }

  lemma AllowAllRestored(lib: FlagsNet.NetLib, p: Perms)
    requires p.allowAll
    ensures Restored(lib, p) <==> p == WithAllowAll(p) && NothingDenied(p)
  {
    ParsedAllowAll(lib, p);
    AllowAllFixed(p);
  }

  lemma BackFromLists(lib: FlagsNet.NetLib, p: Perms, m: Matches)
    requires !p.allowAll && NoPanic(lib, m)
    requires m == Matches(map f | f in p.lists :: ReadBack(p.lists[f]), Switches(p))
    ensures Assigned(lib, m, DEFAULT) == p <==>
              forall f :: f in p.lists ==> Stored(lib, f, ReadBack(p.lists[f])) == Some(p.lists[f])
  {
  }

  lemma ComesBackExactly(lib: FlagsNet.NetLib, p: Perms)
    requires !p.allowAll
    ensures Restored(lib, p) <==> forall f :: f in p.lists ==> ComesBack(lib, f, p.lists[f])
  {
    MatchesPrintedPerms(lib, p);
    MatchesAreRead(lib, NO_MATCHES, Print(p));
    var r := MatchAll(lib, NO_MATCHES, Print(p));
    if r.Some? {
      BackFromLists(lib, p, r.value);
    }
  }

  lemma ListsRestored(lib: FlagsNet.NetLib, p: Perms)
    requires FlagsNet.Lawful(lib) && !p.allowAll
    ensures Restored(lib, p) <==> forall f :: f in p.lists ==> ListOk(lib, f, p.lists[f])
  {
    ComesBackExactly(lib, p);
    forall f | f in p.lists ensures ComesBack(lib, f, p.lists[f]) <==> ListOk(lib, f, p.lists[f]) {
      ListRestored(lib, f, p.lists[f]);
    }
  }

  /**
   * Exactly when printing and parsing restore the flags: with `allow_all`, when nothing is denied;
   * otherwise when every entry is comma-free, valid and, in a host list, not a bare port.
   */
  lemma RestoredExactly(lib: FlagsNet.NetLib, p: Perms)
    requires FlagsNet.Lawful(lib)
    ensures Restored(lib, p) <==>
              if p.allowAll then p == WithAllowAll(p) && NothingDenied(p)
              else forall f :: f in p.lists ==> ListOk(lib, f, p.lists[f])
  {
    if p.allowAll {
      AllowAllRestored(lib, p);
    } else {
      ListsRestored(lib, p);
    }
  }

  /**
   * The promise of `to_permission_args`: flags that were parsed from any arguments print to
   * equivalent ones, unless `--allow-all` came together with a denial or a certificate list.
   */
  lemma PrintsEquivalentArgs(lib: FlagsNet.NetLib, args: seq<string>)
    requires FlagsNet.Lawful(lib) && Parsed(lib, args).Some?
    ensures var p := Parsed(lib, args).value; Restored(lib, p) <==> !p.allowAll || NothingDenied(p)
  {
    var m := MatchAll(lib, NO_MATCHES, args).value;
    var p := Parsed(lib, args).value;
    MatchesAreRead(lib, NO_MATCHES, args);
    RestoredExactly(lib, p);
    if p.allowAll {
      assert p.lists + ALLOWED_EVERYTHING == p.lists;
    } else {
      forall f | f in p.lists ensures ListOk(lib, f, p.lists[f]) {
        StoredIsOk(lib, f, m.lists[f]);
      }
    }
  }

  /** Any denial is lost next to `--allow-all`. */
  lemma AllowAllLosesDenials(lib: FlagsNet.NetLib, kind: Kind)
    requires FlagsNet.Lawful(lib)
    ensures var args := ["--" + Text(AllowAll), PrintList(Deny(kind), [])];
            Parsed(lib, args).Some? && !Restored(lib, Parsed(lib, args).value)
  {
    var denial := PrintList(Deny(kind), []);
    var args := ["--" + Text(AllowAll), denial];
    assert args == ["--" + Text(AllowAll)] + ([denial] + []);
    MatchesSwitch(lib, NO_MATCHES, AllowAll, [denial] + []);
    var m := NO_MATCHES.(switches := NO_MATCHES.switches + {AllowAll});
    MatchesPrinted(lib, m, Deny(kind), []);
    MatchesFirst(lib, m, denial, []);
    var all := m.(lists := m.lists[Deny(kind) := []]);
    assert MatchAll(lib, NO_MATCHES, args) == Some(all);
    assert Deny(kind) in Parsed(lib, args).value.lists;
    PrintsEquivalentArgs(lib, args);
  }
}
