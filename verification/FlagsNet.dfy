/**
 * Host and port lists of network flags (cli/args/flags_net.rs). Whether a text parses as a URL
 * authority or as an IP address is up to libraries and given by a `NetLib`.
 */
module FlagsNet {
  import opened Wrappers

  datatype NetLib = NetLib(isAuthority: string -> bool, isIp: string -> bool)

  predicate Digit(c: char) { '0' <= c <= '9' }

  function Value(digits: string): nat
    requires forall i :: 0 <= i < |digits| ==> Digit(digits[i])
  {
    if digits == "" then 0
    else
      var last := digits[|digits| - 1];
      assert Digit(last);
      Value(digits[..|digits| - 1]) * 10 + (last as int - '0' as int)
  }

  /** Rust's `u16::from_str`: an optional plus sign, then digits, at most 65535. */
  function ParseU16(s: string): (r: Option<nat>)
    ensures r.Some? ==> r.value <= 65535
  {
    var digits := if s != "" && s[0] == '+' then s[1..] else s;
    if digits != "" && (forall i :: 0 <= i < |digits| ==> Digit(digits[i])) && Value(digits) <= 65535
    then Some(Value(digits))
    else None
  }

  function Decimal(n: nat): (s: string)
    ensures s != "" && forall i :: 0 <= i < |s| ==> Digit(s[i])
  {
    var last := ['0' + (n % 10) as char];
    if n < 10 then last else Decimal(n / 10) + last
  }

  /** Printing a number and reading it back gives the number. */
  lemma {:induction false} DecimalValue(n: nat)
    ensures Value(Decimal(n)) == n
  {
    if n >= 10 {
      DecimalValue(n / 10);
      assert Decimal(n)[..|Decimal(n)| - 1] == Decimal(n / 10);
    }
  }

  /** `BarePort::from_str`. */
  function BarePort(s: string): Option<nat> {
    if s != "" && s[0] == ':' then ParseU16(s[1..]) else None
  }

  const HOSTS := ["0.0.0.0", "127.0.0.1", "localhost"]

  predicate IsHost(lib: NetLib, s: string) {
    lib.isAuthority(s) || lib.isIp(s)
  }

  /** `validator`. */
  predicate Validates(lib: NetLib, s: string) {
    IsHost(lib, s) || BarePort(s).Some?
  }

  function HostPort(host: string, port: nat): string {
    host + ":" + Decimal(port)
  }

  /** What one entry stands for; `None` for a bad one. */
  function ExpandOne(lib: NetLib, s: string): (r: Option<seq<string>>)
    ensures r.None? <==> !Validates(lib, s)
    ensures IsHost(lib, s) ==> r == Some([s])
    ensures r.Some? && !IsHost(lib, s) ==> |r.value| == 3
  {
    if IsHost(lib, s) then Some([s])
    else
      match BarePort(s)
      case None => None
      case Some(port) => Some([HostPort(HOSTS[0], port), HostPort(HOSTS[1], port), HostPort(HOSTS[2], port)])
  }

  function Expand(lib: NetLib, entries: seq<string>): Option<seq<string>> {
    if entries == [] then Some([])
    else
      match (ExpandOne(lib, entries[0]), Expand(lib, entries[1..]))
      case (Some(one), Some(rest)) => Some(one + rest)
      case _ => None
  }

  lemma {:induction false} ExpandSnoc(lib: NetLib, entries: seq<string>, s: string)
    ensures Expand(lib, entries + [s]) ==
              (match (Expand(lib, entries), ExpandOne(lib, s))
               case (Some(out), Some(one)) => Some(out + one)
               case _ => None)
  {
    if entries == [] {
      assert entries + [s] == [s];
      assert Expand(lib, [s][1..]) == Some([]);
      assert ExpandOne(lib, s).Some? ==> ExpandOne(lib, s).value + [] == [] + ExpandOne(lib, s).value;
    } else {
      assert (entries + [s])[1..] == entries[1..] + [s];
      ExpandSnoc(lib, entries[1..], s);
      var one, rest, last := ExpandOne(lib, entries[0]), Expand(lib, entries[1..]), ExpandOne(lib, s);
      if one.Some? && rest.Some? && last.Some? {
        assert one.value + (rest.value + last.value) == one.value + rest.value + last.value;
      }
    }
  }

  lemma {:induction false} BadPrefixFails(lib: NetLib, entries: seq<string>, k: nat)
    requires k <= |entries| && Expand(lib, entries[..k]).None?
    ensures Expand(lib, entries).None?
    decreases |entries| - k
  {
    if k < |entries| {
      ExpandSnoc(lib, entries[..k], entries[k]);
      assert entries[..k] + [entries[k]] == entries[..k + 1];
      BadPrefixFails(lib, entries, k + 1);
    } else {
      assert entries[..k] == entries;
    }
  }

  /** `parse`: one loop over the entries, and one over the three hosts for a bare port. */
  method Parse(lib: NetLib, entries: seq<string>) returns (out: Option<seq<string>>)
    ensures out == Expand(lib, entries)
  {
    var acc: seq<string> := [];
    for k := 0 to |entries|
      invariant Expand(lib, entries[..k]) == Some(acc)
    {
      ExpandSnoc(lib, entries[..k], entries[k]);
      assert entries[..k] + [entries[k]] == entries[..k + 1];
      if IsHost(lib, entries[k]) {
        acc := acc + [entries[k]];
      } else {
        match BarePort(entries[k]) {
          case None =>
            BadPrefixFails(lib, entries, k + 1);
            return None;
          case Some(port) =>
            ghost var before, three := acc, ExpandOne(lib, entries[k]).value;
            var h := 0;
            while h < 3
              invariant 0 <= h <= 3 && acc == before + three[..h]
            {
              acc := acc + [HostPort(HOSTS[h], port)];
              h := h + 1;
            }
            assert three[..3] == three;
        }
      }
    }
    assert entries[..|entries|] == entries;
    out := Some(acc);
  }

  // ---- What expansion does ----

  /** A default host with a port is an authority. */
  ghost predicate Lawful(lib: NetLib) {
    forall h, port: nat :: 0 <= h < 3 && port <= 65535 ==> lib.isAuthority(HostPort(HOSTS[h], port))
  }

  predicate AllHosts(lib: NetLib, entries: seq<string>) {
    forall i :: 0 <= i < |entries| ==> IsHost(lib, entries[i])
  }

  /** Expansion leaves only hosts, none fewer than there were entries. */
  lemma {:induction false} ExpandsToHosts(lib: NetLib, entries: seq<string>)
    requires Lawful(lib) && Expand(lib, entries).Some?
    ensures AllHosts(lib, Expand(lib, entries).value)
  {
    if entries != [] {
      ExpandsToHosts(lib, entries[1..]);
      assert AllHosts(lib, ExpandOne(lib, entries[0]).value);
    }
  }

  /** Expansion changes nothing exactly when there is no bare port. */
  lemma {:induction false} ExpandKeepsHosts(lib: NetLib, entries: seq<string>)
    ensures Expand(lib, entries) == Some(entries) <==> AllHosts(lib, entries)
    ensures Expand(lib, entries).Some? ==> |Expand(lib, entries).value| >= |entries|
  {
    if entries != [] {
      ExpandKeepsHosts(lib, entries[1..]);
      var one, rest := ExpandOne(lib, entries[0]), Expand(lib, entries[1..]);
      assert AllHosts(lib, entries) <==> IsHost(lib, entries[0]) && AllHosts(lib, entries[1..]);
      assert entries == [entries[0]] + entries[1..];
      if IsHost(lib, entries[0]) && rest.Some? {
        assert ([entries[0]] + rest.value)[1..] == rest.value;
      }
    }
  }

  /** Expanding twice is expanding once. */
  lemma ExpandIsIdempotent(lib: NetLib, entries: seq<string>)
    requires Lawful(lib) && Expand(lib, entries).Some?
    ensures Expand(lib, Expand(lib, entries).value) == Expand(lib, entries)
  {
    ExpandsToHosts(lib, entries);
    ExpandKeepsHosts(lib, Expand(lib, entries).value);
  }
}
