/** Whose request is it? The scan of X-Forwarded-For from the right, past the trusted proxies. */
module ForwardedAddress {
  import opened Common
  import opened Text

  /** Address parsing and the trusted ranges belong to libraries and configuration. */
  datatype Network = Network(parse: string -> Option<string>, trusted: string -> bool)

  // ---- the entries of the header -------------------------------------------------------------

  /** Trimmed, empty parts dropped. */
  function Kept(parts: seq<string>): seq<string> {
    if parts == [] then []
    else
      var p := TrimSpace(parts[|parts| - 1]);
      Kept(parts[..|parts| - 1]) + if p != "" then [p] else []
  }

  function Entries(lines: seq<string>): seq<string> {
    if lines == [] then [] else Entries(lines[..|lines| - 1]) + Kept(SplitOn(lines[|lines| - 1], ','))
  }

  lemma KeptMore(parts: seq<string>, j: nat)
    requires j < |parts|
    ensures Kept(parts[..j + 1]) == Kept(parts[..j]) + if TrimSpace(parts[j]) != "" then [TrimSpace(parts[j])] else []
  {
    assert parts[..j + 1][..j] == parts[..j];
  }

  lemma EntriesMore(lines: seq<string>, i: nat)
    requires i < |lines|
    ensures Entries(lines[..i + 1]) == Entries(lines[..i]) + Kept(SplitOn(lines[i], ','))
  {
    assert lines[..i + 1][..i] == lines[..i];
  }

  method XffEntries(lines: seq<string>) returns (entries: seq<string>)
    ensures entries == Entries(lines)
  {
    entries := [];
    for i := 0 to |lines|
      invariant entries == Entries(lines[..i])
    {
      entries := AppendParts(entries, SplitOn(lines[i], ','));
      EntriesMore(lines, i);
    }
    assert lines[..|lines|] == lines;
  }

  /** The inner loop. */
  method AppendParts(before: seq<string>, parts: seq<string>) returns (entries: seq<string>)
    ensures entries == before + Kept(parts)
  {
    entries := before;
    for j := 0 to |parts|
      invariant entries == before + Kept(parts[..j])
    {
      var p := TrimSpace(parts[j]);
      KeptMore(parts, j);
      if p != "" { entries := entries + [p]; }
    }
    assert parts[..|parts|] == parts;
  }

  /** The entries of a line are its parts, trimmed, that are not blank. */
  lemma {:induction false} KeptExactly(parts: seq<string>, e: string)
    ensures e in Kept(parts) <==> e != "" && exists k :: 0 <= k < |parts| && e == TrimSpace(parts[k])
  {
    if parts != [] {
      var last := |parts| - 1;
      KeptExactly(parts[..last], e);
      KeptLast(parts, e);
      forall k | 0 <= k < last ensures parts[..last][k] == parts[k] {}
    }
  }

  lemma KeptLast(parts: seq<string>, e: string)
    requires parts != []
    ensures e in Kept(parts) <==>
              e in Kept(parts[..|parts| - 1]) || (e != "" && e == TrimSpace(parts[|parts| - 1]))
  {
  }

  /** One header line in place of several. */
  function Join(lines: seq<string>): string {
    if lines == [] then ""
    else if |lines| == 1 then lines[0]
    else Join(lines[..|lines| - 1]) + [','] + lines[|lines| - 1]
  }

  lemma {:induction false} KeptConcat(a: seq<string>, b: seq<string>)
    ensures Kept(a + b) == Kept(a) + Kept(b)
  {
    if b == [] {
      assert a + b == a;
    } else {
      var n := |b| - 1;
      assert (a + b)[..|a + b| - 1] == a + b[..n];
      KeptConcat(a, b[..n]);
    }
  }

  /** It does not matter how a proxy chain spreads the list over header lines. */
  lemma {:induction false} LinesDoNotMatter(lines: seq<string>)
    ensures Entries(lines) == Kept(SplitOn(Join(lines), ','))
  {
    if lines == [] {
      assert SplitOn("", ',') == [""] && [""][..0] == [] && TrimSpace("") == "";
    } else {
      var n := |lines| - 1;
      var init, last := lines[..n], lines[n];
      if init == [] {
        assert Entries(init) == [];
      } else {
        LinesDoNotMatter(init);
        SplitJoined(Join(init), last, ',');
        KeptConcat(SplitOn(Join(init), ','), SplitOn(last, ','));
      }
    }
  }

  // ---- the scan --------------------------------------------------------------------------------

  predicate Skipped(net: Network, entry: string) {
    net.parse(entry).Some? ==> net.trusted(net.parse(entry).value)
  }

  /** The last entry that is an address and not a trusted proxy's. */
  function Rightmost(net: Network, entries: seq<string>): Option<string> {
    if entries == [] then None
    else
      var last := |entries| - 1;
      if Skipped(net, entries[last]) then Rightmost(net, entries[..last]) else net.parse(entries[last])
  }

  function FirstParsed(net: Network, values: seq<string>): Option<string> {
    if values == [] then None
    else if net.parse(values[0]).Some? then net.parse(values[0])
    else FirstParsed(net, values[1..])
  }

  function ClientIP(net: Network, lines: seq<string>, single: seq<string>): Option<string> {
    var entries := Entries(lines);
    if Rightmost(net, entries).Some? then Rightmost(net, entries)
    else if entries != [] && net.parse(entries[0]).Some? then net.parse(entries[0])
    else FirstParsed(net, single)
  }

  lemma RightmostStep(net: Network, entries: seq<string>, i: nat)
    requires i < |entries|
    ensures Rightmost(net, entries[..i + 1]) ==
              if Skipped(net, entries[i]) then Rightmost(net, entries[..i]) else net.parse(entries[i])
  {
    assert entries[..i + 1][..i] == entries[..i];
  }

  /** `single` holds the values of True-Client-IP and X-Real-IP, in this order. */
  method ForwardedClientIP(net: Network, lines: seq<string>, single: seq<string>) returns (r: Option<string>)
    ensures r == ClientIP(net, lines, single)
  {
    var entries := XffEntries(lines);
    if |entries| > 0 {
      var i := |entries| - 1;
      assert entries[..i + 1] == entries;
      while i >= 0
        invariant -1 <= i < |entries|
        invariant Rightmost(net, entries) == Rightmost(net, entries[..i + 1])
      {
        RightmostStep(net, entries, i);
        var ip := net.parse(entries[i]);
        if ip.Some? && !net.trusted(ip.value) { return ip; }
        i := i - 1;
      }
      var ip := net.parse(entries[0]);
      if ip.Some? { return ip; }
    }
    r := Fallback(net, single);
  }

  method Fallback(net: Network, single: seq<string>) returns (r: Option<string>)
    ensures r == FirstParsed(net, single)
  {
    for i := 0 to |single|
      invariant FirstParsed(net, single) == FirstParsed(net, single[i..])
    {
      assert single[i..][1..] == single[i + 1..];
      var ip := net.parse(single[i]);
      if ip.Some? { return ip; }
    }
    r := None;
  }

  class Request {
    var remoteAddr: string
    const xff: seq<string>
    const single: seq<string>

    constructor (remoteAddr: string, xff: seq<string>, single: seq<string>)
      ensures this.remoteAddr == remoteAddr && this.xff == xff && this.single == single
    {
      this.remoteAddr, this.xff, this.single := remoteAddr, xff, single;
    }

    /** Only a trusted peer's headers are believed. */
    method TrustedRealIP(net: Network)
      modifies this
      ensures remoteAddr ==
                if Skipped(net, old(remoteAddr)) && net.parse(old(remoteAddr)).Some?
                then Or(ClientIP(net, xff, single), old(remoteAddr)) else old(remoteAddr)
    {
      var peer := net.parse(remoteAddr);
      if peer.Some? && net.trusted(peer.value) {
        var ip := ForwardedClientIP(net, xff, single);
        if ip.Some? { remoteAddr := ip.value; }
      }
    }
  }

  // ---- what the scan finds -----------------------------------------------------------------------

  /** Entry i is the client: an address outside the trusted ranges, with nothing but trusted
      proxies and garbage to its right. */
  ghost predicate IsClient(net: Network, entries: seq<string>, i: int) {
    0 <= i < |entries| && !Skipped(net, entries[i]) && forall j :: i < j < |entries| ==> Skipped(net, entries[j])
  }

  lemma {:induction false} RightmostExactly(net: Network, entries: seq<string>)
    ensures Rightmost(net, entries).None? <==> forall i :: 0 <= i < |entries| ==> Skipped(net, entries[i])
    ensures forall i :: IsClient(net, entries, i) ==> Rightmost(net, entries) == net.parse(entries[i])
    ensures Rightmost(net, entries).Some? ==> !net.trusted(Rightmost(net, entries).value)
  {
    if entries != [] {
      var last := |entries| - 1;
      var init := entries[..last];
      RightmostExactly(net, init);
      forall i | IsClient(net, entries, i) ensures Rightmost(net, entries) == net.parse(entries[i]) {
        if i < last {
          forall j | i < j < last ensures Skipped(net, init[j]) { assert init[j] == entries[j]; }
          assert IsClient(net, init, i);
        }
      }
    }
  }

  /** Nothing a client writes in front of the address its trusted proxy appended is ever believed:
      whatever stands to the left, on however many lines, the address found is the same. */
  lemma SpoofingIsIgnored(net: Network, lines: seq<string>, single: seq<string>, before: seq<string>, c: string,
                          after: seq<string>)
    requires Entries(lines) == before + [c] + after
    requires net.parse(c).Some? && !net.trusted(net.parse(c).value) && forall h :: h in after ==> Skipped(net, h)
    ensures ClientIP(net, lines, single) == net.parse(c)
  {
    var entries, i := Entries(lines), |before|;
    assert entries[i] == c;
    forall j | i < j < |entries| ensures Skipped(net, entries[j]) { assert entries[j] == after[j - i - 1]; }
    assert IsClient(net, entries, i);
    RightmostExactly(net, entries);
  }

  /** X-Forwarded-For, the other headers aside, yields a trusted address exactly when every address
      in it is trusted and its first entry is one: that entry's, then. */
  lemma TrustedOnlyIfAllAre(net: Network, lines: seq<string>)
    ensures var ip, entries := ClientIP(net, lines, []), Entries(lines);
            && (ip.Some? && net.trusted(ip.value) <==>
                (forall i :: 0 <= i < |entries| ==> Skipped(net, entries[i])) && entries != [] && net.parse(entries[0]).Some?)
            && (ip.Some? && net.trusted(ip.value) ==> ip == net.parse(entries[0]))
  {
    RightmostExactly(net, Entries(lines));
  }

  /** The single-value headers decide exactly when no entry is an untrusted address and the first
      is none at all: then also with X-Forwarded-For present. */
  lemma FallbackExactly(net: Network, lines: seq<string>, single: seq<string>)
    ensures var entries := Entries(lines);
            ClientIP(net, lines, []).None? <==>
              (forall i :: 0 <= i < |entries| ==> Skipped(net, entries[i])) && (entries == [] || net.parse(entries[0]).None?)
    ensures ClientIP(net, lines, single) ==
              if ClientIP(net, lines, []).None? then FirstParsed(net, single) else ClientIP(net, lines, [])
  {
    RightmostExactly(net, Entries(lines));
  }

  /** True-Client-IP before X-Real-IP: the first that is an address. */
  lemma {:induction false} FirstParsedExactly(net: Network, values: seq<string>)
    ensures FirstParsed(net, values).None? <==> forall i :: 0 <= i < |values| ==> net.parse(values[i]).None?
    ensures forall i :: (&& 0 <= i < |values| && net.parse(values[i]).Some?
                         && forall j :: 0 <= j < i ==> net.parse(values[j]).None?) ==>
              FirstParsed(net, values) == net.parse(values[i])
  {
    if values != [] && net.parse(values[0]).None? {
      var rest := values[1..];
      FirstParsedExactly(net, rest);
      forall i | 0 <= i < |values| ensures i > 0 ==> values[i] == rest[i - 1] {}
      if forall i :: 0 <= i < |rest| ==> net.parse(rest[i]).None? {
        forall i | 0 <= i < |values| ensures net.parse(values[i]).None? { if i > 0 { assert values[i] == rest[i - 1]; } }
      }
      forall i | && 0 <= i < |values| && net.parse(values[i]).Some?
                 && forall j :: 0 <= j < i ==> net.parse(values[j]).None?
        ensures FirstParsed(net, values) == net.parse(values[i])
      {
        forall j | 0 <= j < i - 1 ensures net.parse(rest[j]).None? { assert rest[j] == values[j + 1]; }
        assert rest[i - 1] == values[i];
      }
    }
  }

  /** The header is there, its one entry is no address, and the single-value header decides. */
  lemma GarbageFallsBack(net: Network, entry: string, client: string)
    requires entry != "" && Trimmed(entry) && !Contains(entry, ',')
    requires net.parse(entry).None? && net.parse(client).Some?
    ensures Entries([entry]) == [entry] && ClientIP(net, [entry], [client]) == net.parse(client)
  {
    TrimFixpoint(entry);
    assert SplitOn(entry, ',') == [entry];
    assert [entry][..0] == [];
    assert Kept([entry]) == [entry];
    assert Entries([entry]) == Entries([]) + [entry];
    assert Skipped(net, [entry][0]);
    FallbackExactly(net, [entry], [client]);
    assert FirstParsed(net, [client]) == net.parse([client][0]);
  }
}
