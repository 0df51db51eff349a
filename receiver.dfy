/** The receiver script, Code/SHA-1-Receiver.py: the IP address check, the
    two receive loops over the connection, reading hashes.txt and
    receive.txt back line by line, pairing every hash with its chunk in a
    dictionary and a numbered scratch file, reconciling the `sha1sum`
    reference lines against that dictionary, and rendering the report. */
module Receiver {
  import opened Common
  import opened Text

  // ---------------------------------------------------------------------
  // The IP address check
  // ---------------------------------------------------------------------

  /** `\d{1,3}` over ASCII digits. */
  predicate DigitGroup(p: string)
  {
    1 <= |p| <= 3 && AllDigits(p)
  }

  /** Four digit groups separated by dots, and nothing else. */
  predicate DottedQuad(s: string)
  {
    var parts := SplitOn(s, '.');
    |parts| == 4 && forall i :: 0 <= i < 4 ==> DigitGroup(parts[i])
  }

  /** `re.match(r"^\d{1,3}\.\d{1,3}\.\d{1,3}\.\d{1,3}$", s)`: `$` also
      matches just before a final "\n". */
  predicate IpPatternMatches(s: string)
  {
    DottedQuad(s) || (|s| > 0 && s[|s| - 1] == '\n' && DottedQuad(s[..|s| - 1]))
  }

  /** The check in main: a non-matching address raises. */
  function CheckIp(s: string): (r: Outcome)
    ensures r.Failed? ==> r.error == IllegalIp
  {
    if IpPatternMatches(s) then Done else Failed(IllegalIp)
  }

  /** Any four groups of one to three digits pass, whatever their value. */
  lemma {:induction false} QuadAccepted(a: string, b: string, c: string, d: string)
    requires DigitGroup(a) && DigitGroup(b) && DigitGroup(c) && DigitGroup(d)
    ensures CheckIp(a + "." + b + "." + c + "." + d).Done?
  {
    var parts := [a, b, c, d];
    assert Join([c, d], '.') == c + "." + d by {
      assert [c, d][1..] == [d];
    }
    assert Join([b, c, d], '.') == b + "." + c + "." + d by {
      assert [b, c, d][1..] == [c, d];
    }
    assert parts[1..] == [b, c, d];
    forall i | 0 <= i < 4 ensures '.' !in parts[i] {
      assert DigitGroup(parts[i]);
    }
    SplitJoin(parts, '.');
    assert Join(parts, '.') == a + "." + b + "." + c + "." + d;
  }

  /** The same quad followed by one "\n" passes too, since `$` matches
      before a final newline. */
  lemma {:induction false} QuadNewline(a: string, b: string, c: string, d: string)
    requires DigitGroup(a) && DigitGroup(b) && DigitGroup(c) && DigitGroup(d)
    ensures CheckIp(a + "." + b + "." + c + "." + d + "\n").Done?
  {
    var q := a + "." + b + "." + c + "." + d;
    QuadAccepted(a, b, c, d);
    assert (q + "\n")[..|q|] == q;
  }

  /** A dotted quad is its four groups joined by dots. */
  lemma {:induction false} QuadShape(q: string)
    requires DottedQuad(q)
    ensures var p := SplitOn(q, '.');
      && |p| == 4 && DigitGroup(p[0]) && DigitGroup(p[1]) && DigitGroup(p[2]) && DigitGroup(p[3])
      && q == p[0] + "." + p[1] + "." + p[2] + "." + p[3]
  {
    var p := SplitOn(q, '.');
    JoinSplit(q, '.');
    assert Join(p[2..], '.') == p[2] + "." + p[3] by {
      assert p[2..][1..] == [p[3]];
    }
    assert Join(p[1..], '.') == p[1] + "." + p[2] + "." + p[3] by {
      assert p[1..][1..] == p[2..];
    }
  }

  /** Whatever passes is four digit groups joined by dots, possibly followed
      by one "\n". */
  lemma {:induction false} AcceptedShape(s: string)
    requires CheckIp(s).Done?
    ensures var q := if DottedQuad(s) then s else s[..|s| - 1];
      var p := SplitOn(q, '.');
      && (s == q || s == q + "\n")
      && |p| == 4 && DigitGroup(p[0]) && DigitGroup(p[1]) && DigitGroup(p[2]) && DigitGroup(p[3])
      && q == p[0] + "." + p[1] + "." + p[2] + "." + p[3]
  {
    var q := if DottedQuad(s) then s else s[..|s| - 1];
    QuadShape(q);
    if !DottedQuad(s) {
      assert s == q + "\n";
    }
  }

  /** No range check: the largest three-digit groups pass. */
  lemma {:induction false} IpNoRangeCheck()
    ensures CheckIp("999.999.999.999").Done?
  {
    QuadAccepted("999", "999", "999", "999");
    assert "999" + "." + "999" + "." + "999" + "." + "999" == "999.999.999.999";
  }

  /** `$` also matches before a final newline, so one trailing "\n" passes. */
  lemma {:induction false} IpTrailingNewline()
    ensures CheckIp("192.168.1.10\n").Done?
  {
    QuadAccepted("192", "168", "1", "10");
    var s := "192.168.1.10\n";
    assert s[..|s| - 1] == "192" + "." + "168" + "." + "1" + "." + "10";
  }

  /** A passing address has at least seven characters. */
  lemma {:induction false} ShortNotAccepted(s: string)
    requires |s| < 7
    ensures CheckIp(s).Failed?
  {
    if CheckIp(s).Done? {
      AcceptedShape(s);
    }
  }

  // ---------------------------------------------------------------------
  // The receive loops
  // ---------------------------------------------------------------------

  /** What one `recv(1024)` call on the connection gives: data (empty once
      the transmitter has closed its side) or a timeout. */
  datatype Recv = Data(bytes: seq<byte>) | Timeout

  /** A read that ends a receive loop: the empty read or a timeout. */
  predicate Stops(x: Recv)
  {
    x.Timeout? || x.bytes == []
  }

  /** Where the receive loop that starts at `start` stops: the first empty
      read or timeout at or after `start`, or the end of the outcomes. */
  function PhaseEnd(outcomes: seq<Recv>, start: nat): (e: nat)
    requires start <= |outcomes|
    ensures start <= e <= |outcomes|
    ensures forall j :: start <= j < e ==> !Stops(outcomes[j])
    ensures e < |outcomes| ==> Stops(outcomes[e])
    decreases |outcomes| - start
  {
    if start == |outcomes| || Stops(outcomes[start]) then start else PhaseEnd(outcomes, start + 1)
  }

  /** Where the next loop starts: after the read that stopped this one. */
  function Resume(outcomes: seq<Recv>, start: nat): (next: nat)
    requires start <= |outcomes|
    ensures start <= next <= |outcomes|
  {
    var e := PhaseEnd(outcomes, start);
    if e < |outcomes| then e + 1 else e
  }

  /** The buffers one receive loop keeps: the non-empty reads before it
      stops, in order. */
  function Phase(outcomes: seq<Recv>, start: nat): (buffers: seq<seq<byte>>)
    requires start <= |outcomes|
    ensures forall j :: 0 <= j < |buffers| ==> buffers[j] != []
  {
    var e := PhaseEnd(outcomes, start);
    seq(e - start, j requires 0 <= j < e - start => outcomes[start + j].bytes)
  }

  /** A timeout ends a loop exactly as an empty read does. */
  lemma {:induction false} TimeoutLikeEmptyRead(outcomes: seq<Recv>, k: nat, start: nat)
    requires k < |outcomes| && outcomes[k].Timeout? && start <= |outcomes|
    ensures PhaseEnd(outcomes[k := Data([])], start) == PhaseEnd(outcomes, start)
    ensures Resume(outcomes[k := Data([])], start) == Resume(outcomes, start)
    ensures Phase(outcomes[k := Data([])], start) == Phase(outcomes, start)
    decreases |outcomes| - start
  {
    var outcomes' := outcomes[k := Data([])];
    if start < |outcomes| && !Stops(outcomes[start]) {
      assert outcomes'[start] == outcomes[start];
      TimeoutLikeEmptyRead(outcomes, k, start + 1);
    }
  }

  /** One `try: while True: recv ... except socket.timeout: pass` block,
      reading from position `start` of the outcomes. Running out of outcomes
      counts as the transmitter having closed the connection. */
  method ReceiveFile(outcomes: seq<Recv>, start: nat) returns (buffers: seq<seq<byte>>, next: nat)
    requires start <= |outcomes|
    ensures buffers == Phase(outcomes, start)
    ensures next == Resume(outcomes, start)
  {
    buffers := [];
    var k := start;
    while true
      invariant start <= k <= PhaseEnd(outcomes, start)
      invariant |buffers| == k - start
      invariant forall j :: 0 <= j < |buffers| ==> buffers[j] == outcomes[start + j].bytes
      decreases |outcomes| - k
    {
      if k == |outcomes| {
        next := k;
        break;
      }
      var x := outcomes[k];
      k := k + 1;
      if x.Timeout? {
        next := k;
        break;
      }
      if x.bytes == [] {
        next := k;
        break;
      } else {
        buffers := buffers + [x.bytes];
      }
    }
  }

  /** `with open(path, "wb")` followed by writing every buffer. */
  method WriteBuffers(buffers: seq<seq<byte>>) returns (file: seq<byte>)
    ensures file == Flatten(buffers)
  {
    file := [];
    var i := 0;
    while i < |buffers|
      invariant 0 <= i <= |buffers|
      invariant file == Flatten(buffers[..i])
    {
      FlattenConcat(buffers[..i], [buffers[i]]);
      assert buffers[..i + 1] == buffers[..i] + [buffers[i]];
      assert Flatten([buffers[i]]) == buffers[i] + Flatten<byte>([]);
      file := file + buffers[i];
      i := i + 1;
    }
    assert buffers[..i] == buffers;
  }

  const AckHashes := "Successfully received hashes.txt"
  const AckReceive := "Successfully received receive.txt"

  /** receive_data_from_transmitter: the first loop fills hashes.txt, the
      second, starting after the read that stopped the first, fills
      receive.txt; both acknowledgements go out in this order whatever
      was received. Both files are overwritten. */
  method ReceiveFromTransmitter(outcomes: seq<Recv>) returns (hashesData: seq<byte>, receiveData: seq<byte>, acks: seq<string>)
    ensures hashesData == Flatten(Phase(outcomes, 0))
    ensures receiveData == Flatten(Phase(outcomes, Resume(outcomes, 0)))
    ensures acks == [AckHashes, AckReceive]
  {
    var dataHashes, next := ReceiveFile(outcomes, 0);
    acks := [AckHashes];
    var dataReceive, _ := ReceiveFile(outcomes, next);
    acks := acks + [AckReceive];
    hashesData := WriteBuffers(dataHashes);
    receiveData := WriteBuffers(dataReceive);
  }

  /** A loop whose reads are all data up to a stopping read at e ends at e. */
  lemma {:induction false} PhaseEndAt(outcomes: seq<Recv>, start: nat, e: nat)
    requires start <= e < |outcomes|
    requires forall j :: start <= j < e ==> !Stops(outcomes[j])
    requires Stops(outcomes[e])
    ensures PhaseEnd(outcomes, start) == e
    decreases e - start
  {
    if start < e {
      PhaseEndAt(outcomes, start + 1, e);
    }
  }

  /** The outcomes of reads that each deliver the given non-empty data. */
  function Reads(buffers: seq<seq<byte>>): (outcomes: seq<Recv>)
    ensures |outcomes| == |buffers|
  {
    seq(|buffers|, j requires 0 <= j < |buffers| => Data(buffers[j]))
  }

  /** The two files are cut at the stopping reads and nowhere else: with
      non-empty reads, then a timeout or empty read, then non-empty reads,
      then another stop, hashes.txt gets exactly the first stretch of reads
      and receive.txt exactly the second. A stall inside one file's
      transfer therefore moves the rest of it into the next file. */
  lemma {:induction false} PhasesBetweenStops(first: seq<seq<byte>>, second: seq<seq<byte>>, s1: Recv, s2: Recv, rest: seq<Recv>)
    requires forall j :: 0 <= j < |first| ==> first[j] != []
    requires forall j :: 0 <= j < |second| ==> second[j] != []
    requires Stops(s1) && Stops(s2)
    ensures var outcomes := Reads(first) + [s1] + Reads(second) + [s2] + rest;
      && Phase(outcomes, 0) == first
      && Phase(outcomes, Resume(outcomes, 0)) == second
  {
    var outcomes := Reads(first) + [s1] + Reads(second) + [s2] + rest;
    var n1 := |first|;
    var n2 := n1 + 1 + |second|;
    forall j | 0 <= j < n1 ensures outcomes[j] == Data(first[j]) {
    }
    PhaseEndAt(outcomes, 0, n1);
    forall j | n1 + 1 <= j < n2 ensures outcomes[j] == Data(second[j - n1 - 1]) {
    }
    PhaseEndAt(outcomes, n1 + 1, n2);
    assert Resume(outcomes, 0) == n1 + 1;
  }

  // ---------------------------------------------------------------------
  // Reading hashes.txt and receive.txt back
  // ---------------------------------------------------------------------

  /** `for line in open(path, "r"): if not line: continue; else:
      buffer.append(line.split("\n")[0])`, over the file's text `content`. */
  method ReadLines(content: string) returns (buffer: seq<string>)
    ensures buffer == ParseText(content)
  {
    var t := Translate(content);
    var lines := Lines(t);
    ghost var parts := SplitOn(t, '\n');
    LineHeads(t);
    buffer := [];
    var i := 0;
    while i < |lines|
      invariant 0 <= i <= |lines|
      invariant buffer == parts[..i]
    {
      if lines[i] == "" {
        assert false;
      } else {
        buffer := buffer + [Head(lines[i], '\n')];
      }
      i := i + 1;
    }
    assert parts[..|parts|] == parts;
  }

  // ---------------------------------------------------------------------
  // Mapping every hash to its chunk
  // ---------------------------------------------------------------------

  const ScratchPrefix := "text-of-hashes-"
  const ScratchSuffix := ".txt"

  /** The scratch file of position i, numbered from 1. */
  function ScratchName(i: nat): (name: string)
  {
    ScratchPrefix + Decimal(i + 1) + ScratchSuffix
  }

  /** Different positions get different scratch files. */
  lemma {:induction false} ScratchNamesDistinct(i: nat, j: nat)
    requires i != j
    ensures ScratchName(i) != ScratchName(j)
  {
    var a, b := ScratchName(i), ScratchName(j);
    if a == b {
      assert Decimal(i + 1) == a[|ScratchPrefix|..|a| - |ScratchSuffix|];
      assert Decimal(j + 1) == b[|ScratchPrefix|..|b| - |ScratchSuffix|];
      DecimalInjective(i + 1, j + 1);
    }
  }

  /** The dictionary after `update({hs[i]: ts[i]})` for every i in order. */
  function Pairs(hs: seq<string>, ts: seq<string>): (d: map<string, string>)
    requires |hs| == |ts|
    ensures forall x :: x in d ==> x in hs
  {
    if hs == [] then map[]
    else Pairs(hs[..|hs| - 1], ts[..|ts| - 1])[hs[|hs| - 1] := ts[|ts| - 1]]
  }

  /** The keys are exactly the hashes. */
  lemma {:induction false} PairsKeys(hs: seq<string>, ts: seq<string>)
    requires |hs| == |ts|
    ensures Pairs(hs, ts).Keys == set i | 0 <= i < |hs| :: hs[i]
  {
    if hs != [] {
      var n := |hs| - 1;
      PairsKeys(hs[..n], ts[..n]);
      var s := set i | 0 <= i < n :: hs[..n][i];
      assert s == set i | 0 <= i < n :: hs[i];
      assert (set i | 0 <= i < |hs| :: hs[i]) == s + {hs[n]};
    }
  }

  /** For a hash that repeats, the text of its last position wins. */
  lemma {:induction false} PairsLastWins(hs: seq<string>, ts: seq<string>, i: nat)
    requires |hs| == |ts| && i < |hs|
    requires forall j :: i < j < |hs| ==> hs[j] != hs[i]
    ensures hs[i] in Pairs(hs, ts) && Pairs(hs, ts)[hs[i]] == ts[i]
  {
    var n := |hs| - 1;
    var d := Pairs(hs[..n], ts[..n]);
    assert Pairs(hs, ts) == d[hs[n] := ts[n]];
    if i < n {
      assert hs[..n][i] == hs[i] && ts[..n][i] == ts[i];
      PairsLastWins(hs[..n], ts[..n], i);
      assert hs[n] != hs[i];
    }
  }

  /** The scratch files after writing text i to ScratchName(i) for every i
      in order. */
  function ScratchFiles(ts: seq<string>): (files: map<string, string>)
  {
    if ts == [] then map[]
    else ScratchFiles(ts[..|ts| - 1])[ScratchName(|ts| - 1) := ts[|ts| - 1]]
  }

  /** The scratch files are exactly those of the positions written. */
  lemma {:induction false} ScratchFilesKeys(ts: seq<string>)
    ensures ScratchFiles(ts).Keys == set i | 0 <= i < |ts| :: ScratchName(i)
  {
    if ts != [] {
      var n := |ts| - 1;
      ScratchFilesKeys(ts[..n]);
      var before := set i | 0 <= i < n :: ScratchName(i);
      var after := set i | 0 <= i < |ts| :: ScratchName(i);
      forall x | x in after ensures x in before + {ScratchName(n)} {
        var i :| 0 <= i < |ts| && x == ScratchName(i);
        if i < n {
          assert x in before;
        }
      }
      assert after == before + {ScratchName(n)};
    }
  }

  /** Scratch file i holds text i: later writes go to other files. */
  lemma {:induction false} ScratchFilesHold(ts: seq<string>)
    ensures forall i :: 0 <= i < |ts| ==> ScratchName(i) in ScratchFiles(ts) && ScratchFiles(ts)[ScratchName(i)] == ts[i]
  {
    if ts != [] {
      var n := |ts| - 1;
      var pre := ts[..n];
      ScratchFilesHold(pre);
      var f := ScratchFiles(ts);
      assert f == ScratchFiles(pre)[ScratchName(n) := ts[n]];
      forall i | 0 <= i < |ts| ensures ScratchName(i) in f && f[ScratchName(i)] == ts[i] {
        if i < n {
          ScratchNamesDistinct(i, n);
          assert pre[i] == ts[i];
          assert ScratchName(i) in ScratchFiles(pre);
        }
      }
    }
  }

  /** The mapping loop: for every position of the hash list that also has
      a chunk, record hash -> chunk and write the chunk to its scratch file.
      A position without a chunk raises IndexError, which the loop catches
      and reports, so it changes nothing. */
  method MapHashesToText(hashes: seq<string>, texts: seq<string>) returns (dict: map<string, string>, scratch: map<string, string>)
    ensures var b := Min(|hashes|, |texts|);
      dict == Pairs(hashes[..b], texts[..b]) && scratch == ScratchFiles(texts[..b])
  {
    ghost var b := Min(|hashes|, |texts|);
    dict, scratch := map[], map[];
    var i := 0;
    while i < |hashes|
      invariant 0 <= i <= |hashes|
      invariant dict == Pairs(hashes[..Min(i, b)], texts[..Min(i, b)])
      invariant scratch == ScratchFiles(texts[..Min(i, b)])
    {
      if i < |texts| {
        assert hashes[..i + 1][..i] == hashes[..i] && texts[..i + 1][..i] == texts[..i];
        dict := dict[hashes[i] := texts[i]];
        scratch := scratch[ScratchName(i) := texts[i]];
      }
      i := i + 1;
    }
  }

  // ---------------------------------------------------------------------
  // Reconciling the reference lines
  // ---------------------------------------------------------------------

  /** `hs.index(x)`: the first position holding x. */
  function IndexOf(hs: seq<string>, x: string): (k: nat)
    requires x in hs
    ensures k < |hs| && hs[k] == x
    ensures forall j :: 0 <= j < k ==> hs[j] != x
  {
    if hs[0] == x then 0 else 1 + IndexOf(hs[1..], x)
  }

  /** `raw_line.split(" ")[0]`: the hash at the front of a `sha1sum` line. */
  function Token(line: string): (t: string)
    ensures ' ' !in t
  {
    Head(line, ' ')
  }

  /** Reference line j marks slot k: its token is a dictionary key whose
      first position in the hash list is k. */
  predicate Marks(hashes: seq<string>, keys: set<string>, lines: seq<string>, j: nat, k: nat)
    requires forall x :: x in keys ==> x in hashes
    requires j < |lines|
  {
    Token(lines[j]) in keys && IndexOf(hashes, Token(lines[j])) == k
  }

  /** The comparison loop runs to the end: every token found in the
      dictionary has its first position inside `matched_hashes`, and the
      stale index `i` names a slot (there is one only when n > 0). */
  predicate ReconcileOk(hashes: seq<string>, keys: set<string>, n: nat, lines: seq<string>)
    requires forall x :: x in keys ==> x in hashes
  {
    lines == [] ||
    (n > 0 && forall j :: 0 <= j < |lines| && Token(lines[j]) in keys ==> IndexOf(hashes, Token(lines[j])) < n)
  }

  /** `matched_hashes` after the loop: slot k is True when some reference
      line marks it. */
  function MatchedSlots(hashes: seq<string>, keys: set<string>, n: nat, lines: seq<string>): (m: seq<bool>)
    requires forall x :: x in keys ==> x in hashes
    ensures |m| == n
  {
    seq(n, k requires 0 <= k < n => exists j :: 0 <= j < |lines| && Marks(hashes, keys, lines, j, k))
  }

  /** `linux_hashes` after the loop: `linux_hashes[i] = line` with the stale
      `i == n - 1` of the `sha1sum` loop, so only the last slot is written,
      and it holds the last token. */
  function LinuxSlots(n: nat, lines: seq<string>): (l: seq<Option<string>>)
    ensures |l| == n
  {
    seq(n, k requires 0 <= k < n => if k == n - 1 && lines != [] then Some(Token(lines[|lines| - 1])) else None)
  }

  /** The comparison loop over the reference lines, on fresh arrays of n
      slots (n = number of scratch files listed). A token whose first
      position is n or more raises IndexError; so does the write through
      the stale index when n == 0 (or `i` is unbound). */
  method Reconcile(hashes: seq<string>, keys: set<string>, n: nat, lines: seq<string>)
    returns (r: Outcome, matched: seq<bool>, linux: seq<Option<string>>)
    requires forall x :: x in keys ==> x in hashes
    ensures r.Done? <==> ReconcileOk(hashes, keys, n, lines)
    ensures r.Failed? ==> r.error == IndexOutOfRange
    ensures r.Done? ==> matched == MatchedSlots(hashes, keys, n, lines)
    ensures r.Done? ==> linux == LinuxSlots(n, lines)
  {
    var m := new bool[n](_ => false);
    var l := new Option<string>[n](_ => None);
    var i := 0;
    assert lines[..0] == [];
    while i < |lines|
      invariant 0 <= i <= |lines|
      invariant ReconcileOk(hashes, keys, n, lines[..i])
      invariant m[..] == MatchedSlots(hashes, keys, n, lines[..i])
      invariant l[..] == LinuxSlots(n, lines[..i])
    {
      var token := Token(lines[i]);
      ReconcileOkSnoc(hashes, keys, n, lines, i);
      if (token in keys && IndexOf(hashes, token) >= n) || n == 0 {
        // matched_hashes[index] or linux_hashes[i] is out of range
        r := Failed(IndexOutOfRange);
        break;
      }
      MarkLine(m, l, hashes, keys, lines, i);
      i := i + 1;
    }
    if i == |lines| {
      assert lines[..i] == lines;
      r := Done;
    } else {
      ReconcileOkPrefix(hashes, keys, n, lines, i + 1);
    }
    matched, linux := m[..], l[..];
  }

  /** One pass of the comparison loop that does not raise: mark the first
      position of the token, if it is a key, and write the token through the
      stale index. */
  method MarkLine(m: array<bool>, l: array<Option<string>>, hashes: seq<string>, keys: set<string>, lines: seq<string>, i: nat)
    requires forall x :: x in keys ==> x in hashes
    requires i < |lines| && m.Length == l.Length > 0
    requires Token(lines[i]) in keys ==> IndexOf(hashes, Token(lines[i])) < m.Length
    requires m[..] == MatchedSlots(hashes, keys, m.Length, lines[..i])
    requires l[..] == LinuxSlots(l.Length, lines[..i])
    modifies m, l
    ensures m[..] == MatchedSlots(hashes, keys, m.Length, lines[..i + 1])
    ensures l[..] == LinuxSlots(l.Length, lines[..i + 1])
  {
    var token := Token(lines[i]);
    MatchedSnoc(hashes, keys, m.Length, lines, i);
    LinuxSnoc(l.Length, lines, i);
    if token in keys {
      m[IndexOf(hashes, token)] := true;
    }
    l[l.Length - 1] := Some(token);
  }

  /** The loop gets past one more line exactly when it got this far, there
      is a slot to write and the line's token, if a key, has a slot. */
  lemma {:induction false} ReconcileOkSnoc(hashes: seq<string>, keys: set<string>, n: nat, lines: seq<string>, i: nat)
    requires forall x :: x in keys ==> x in hashes
    requires i < |lines|
    ensures ReconcileOk(hashes, keys, n, lines[..i + 1]) <==>
      ReconcileOk(hashes, keys, n, lines[..i]) && n > 0 &&
      (Token(lines[i]) in keys ==> IndexOf(hashes, Token(lines[i])) < n)
  {
    var pre, post := lines[..i], lines[..i + 1];
    assert post[i] == lines[i];
    assert forall j :: 0 <= j < i ==> post[j] == pre[j];
  }

  /** A loop that stops at some line does not get to the end. */
  lemma {:induction false} ReconcileOkPrefix(hashes: seq<string>, keys: set<string>, n: nat, lines: seq<string>, i: nat)
    requires forall x :: x in keys ==> x in hashes
    requires 0 < i <= |lines| && !ReconcileOk(hashes, keys, n, lines[..i])
    ensures !ReconcileOk(hashes, keys, n, lines)
  {
    var pre := lines[..i];
    if n > 0 {
      var j :| 0 <= j < i && Token(pre[j]) in keys && IndexOf(hashes, Token(pre[j])) >= n;
      assert pre[j] == lines[j];
    }
  }

  /** One more reference line marks at most the first position of its
      token, and only when that position is a slot. */
  lemma {:induction false} MatchedSnoc(hashes: seq<string>, keys: set<string>, n: nat, lines: seq<string>, i: nat)
    requires forall x :: x in keys ==> x in hashes
    requires i < |lines|
    ensures var t := Token(lines[i]);
      MatchedSlots(hashes, keys, n, lines[..i + 1]) ==
        if t in keys && IndexOf(hashes, t) < n
        then MatchedSlots(hashes, keys, n, lines[..i])[IndexOf(hashes, t) := true]
        else MatchedSlots(hashes, keys, n, lines[..i])
  {
    var t := Token(lines[i]);
    var pre, post := lines[..i], lines[..i + 1];
    var a := MatchedSlots(hashes, keys, n, post);
    var b := if t in keys && IndexOf(hashes, t) < n then MatchedSlots(hashes, keys, n, pre)[IndexOf(hashes, t) := true]
             else MatchedSlots(hashes, keys, n, pre);
    forall k | 0 <= k < n ensures a[k] == b[k] {
      if a[k] {
        var j :| 0 <= j < i + 1 && Marks(hashes, keys, post, j, k);
        if j < i {
          assert pre[j] == post[j];
          assert Marks(hashes, keys, pre, j, k);
        }
      }
      if b[k] && !(t in keys && IndexOf(hashes, t) == k) {
        var j :| 0 <= j < i && Marks(hashes, keys, pre, j, k);
        assert pre[j] == post[j];
        assert Marks(hashes, keys, post, j, k);
      }
      if t in keys && IndexOf(hashes, t) == k {
        assert post[i] == lines[i];
        assert Marks(hashes, keys, post, i, k);
      }
    }
    assert a == b;
  }

  /** One more reference line overwrites the last slot with its token. */
  lemma {:induction false} LinuxSnoc(n: nat, lines: seq<string>, i: nat)
    requires i < |lines| && n > 0
    ensures LinuxSlots(n, lines[..i + 1]) == LinuxSlots(n, lines[..i])[n - 1 := Some(Token(lines[i]))]
  {
    assert lines[..i + 1][i] == lines[i];
  }

  /** With the dictionary built from the first b hashes, slot k ends up True
      exactly when k < b, k is the first position of its hash, and some
      reference token equals that hash: a later duplicate never matches. */
  lemma {:induction false} MatchedMeaning(hashes: seq<string>, b: nat, n: nat, lines: seq<string>, k: nat)
    requires b <= |hashes| && k < n
    ensures var keys := set i | 0 <= i < b :: hashes[i];
      (forall x :: x in keys ==> x in hashes) &&
      (MatchedSlots(hashes, keys, n, lines)[k] <==>
        k < b && IndexOf(hashes, hashes[k]) == k &&
        exists j :: 0 <= j < |lines| && Token(lines[j]) == hashes[k])
  {
    var keys := set i | 0 <= i < b :: hashes[i];
    assert forall x :: x in keys ==> x in hashes;
    if MatchedSlots(hashes, keys, n, lines)[k] {
      var j :| 0 <= j < |lines| && Marks(hashes, keys, lines, j, k);
      var t := Token(lines[j]);
      var i :| 0 <= i < b && hashes[i] == t;
      assert IndexOf(hashes, t) <= i;
    }
    if k < b && IndexOf(hashes, hashes[k]) == k && exists j :: 0 <= j < |lines| && Token(lines[j]) == hashes[k] {
      var j :| 0 <= j < |lines| && Token(lines[j]) == hashes[k];
      assert hashes[k] in keys;
      assert Marks(hashes, keys, lines, j, k);
    }
  }

  // ---------------------------------------------------------------------
  // The report
  // ---------------------------------------------------------------------

  /** `str()` of a `linux_hashes` slot. */
  function PyStr(o: Option<string>): (s: string)
  {
    match o
    case None => "None"
    case Some(s) => s
  }

  /** Report line i. A matched slot concatenates `linux_hashes[i]` directly,
      which raises on None; an unmatched one reads `hashes_buffer[i]`, which
      raises past the end of the hash list. */
  function ReportLine(names: seq<string>, hashes: seq<string>, matched: seq<bool>, linux: seq<Option<string>>, i: nat): (r: Result<string>)
    requires i < |names| && |matched| == |names| && |linux| == |names|
    ensures matched[i] ==> (r.Ok? <==> linux[i].Some?)
    ensures !matched[i] ==> (r.Ok? <==> i < |hashes|)
    ensures r.Ok? ==> |r.value| > |names[i]| && r.value[..|names[i]|] == names[i]
    ensures r.Raised? ==> r.error == (if matched[i] then NoneConcat else IndexOutOfRange)
  {
    if matched[i] then
      if linux[i].None? then Raised(NoneConcat)
      else Ok(names[i] + " hash has MATCHING value of " + linux[i].value)
    else if i >= |hashes| then Raised(IndexOutOfRange)
    else Ok(names[i] + " hash DOES NOT MATCH: \n\thashlib: 0x" + hashes[i] + "\n\tLinux  : 0x" + PyStr(linux[i]))
  }

  /** The report lines, when none of them raises. */
  function Report(names: seq<string>, hashes: seq<string>, matched: seq<bool>, linux: seq<Option<string>>): (lines: seq<string>)
    requires |matched| == |names| && |linux| == |names|
    requires forall i :: 0 <= i < |names| ==> ReportLine(names, hashes, matched, linux, i).Ok?
    ensures |lines| == |names|
  {
    seq(|names|, i requires 0 <= i < |names| => ReportLine(names, hashes, matched, linux, i).value)
  }

  /** Report line i raises `e` and every earlier line renders. */
  predicate FailsAt(names: seq<string>, hashes: seq<string>, matched: seq<bool>, linux: seq<Option<string>>, i: nat, e: PyError)
    requires i < |names| && |matched| == |names| && |linux| == |names|
  {
    && ReportLine(names, hashes, matched, linux, i) == Raised(e)
    && forall j :: 0 <= j < i ==> ReportLine(names, hashes, matched, linux, j).Ok?
  }

  /** The report loop: one line per slot, in order; the first line that
      raises ends main. */
  method ReportLines(names: seq<string>, hashes: seq<string>, matched: seq<bool>, linux: seq<Option<string>>)
    returns (r: Result<seq<string>>)
    requires |matched| == |names| && |linux| == |names|
    ensures r.Ok? <==> forall i :: 0 <= i < |names| ==> ReportLine(names, hashes, matched, linux, i).Ok?
    ensures r.Ok? ==> r.value == Report(names, hashes, matched, linux)
    ensures r.Raised? ==> exists i :: 0 <= i < |names| && FailsAt(names, hashes, matched, linux, i, r.error)
  {
    var lines := [];
    var i := 0;
    while i < |names|
      invariant 0 <= i <= |names| && |lines| == i
      invariant forall j :: 0 <= j < i ==> ReportLine(names, hashes, matched, linux, j).Ok?
      invariant forall j :: 0 <= j < i ==> lines[j] == ReportLine(names, hashes, matched, linux, j).value
    {
      var line := ReportLine(names, hashes, matched, linux, i);
      if line.Raised? {
        r := Raised(line.error);
        assert FailsAt(names, hashes, matched, linux, i, r.error);
        return;
      }
      lines := lines + [line.value];
      i := i + 1;
    }
    r := Ok(lines);
  }

  /** The stale index leaves every slot but the last at None, so the report
      raises as soon as any slot other than the last is matched. */
  lemma {:induction false} MatchedBeforeLastSlotRaises(names: seq<string>, hashes: seq<string>, matched: seq<bool>, lines: seq<string>, k: nat)
    requires |matched| == |names| && k + 1 < |names| && matched[k]
    ensures ReportLine(names, hashes, matched, LinuxSlots(|names|, lines), k) == Raised(NoneConcat)
  {
  }

  /** An unmatched line quotes both hashes after "0x", the reference side
      through `str()`. */
  lemma {:induction false} MismatchLineQuotesBoth(names: seq<string>, hashes: seq<string>, matched: seq<bool>, linux: seq<Option<string>>, i: nat)
    requires i < |names| && |matched| == |names| && |linux| == |names|
    requires !matched[i] && i < |hashes|
    ensures var line := ReportLine(names, hashes, matched, linux, i).value;
      var a := |names[i]| + |" hash DOES NOT MATCH: \n\thashlib: "|;
      line[a..a + 2 + |hashes[i]|] == "0x" + hashes[i] &&
      line[|line| - |PyStr(linux[i])| - 2..] == "0x" + PyStr(linux[i])
  {
  }

  // ---------------------------------------------------------------------
  // The script's global state
  // ---------------------------------------------------------------------

  /** The receiver's module-level lists and the results file (assumed
      empty when the script starts). */
  class Script {
    var resultsLines: seq<string>   // text_to_push_list_results
    var hashLines: seq<string>      // text_to_push_list_hashes
    var resultsFile: string         // SHA-1-results-rx.txt
    var hashesFile: string          // hashes.txt, as write_txt_file appends to it

    constructor ()
      ensures resultsLines == [] && hashLines == []
      ensures resultsFile == "" && hashesFile == ""
    {
      resultsLines, hashLines := [], [];
      resultsFile, hashesFile := "", "";
    }

    method MakeResultsTxtHeader(hwName: string)
      modifies this`resultsLines
      ensures resultsLines == old(resultsLines) + [ResultsHeader(hwName)]
    {
      resultsLines := resultsLines + [ResultsHeader(hwName)];
    }

    /** push_text: "results" goes to the results list, "hashes" to the hash
        list, any other type is dropped. */
    method PushText(line: string, kind: string)
      modifies this`resultsLines, this`hashLines
      ensures kind == "results" ==> resultsLines == old(resultsLines) + [line] && hashLines == old(hashLines)
      ensures kind == "hashes" ==> hashLines == old(hashLines) + [line] && resultsLines == old(resultsLines)
      ensures kind != "results" && kind != "hashes" ==>
                resultsLines == old(resultsLines) && hashLines == old(hashLines)
    {
      if kind == "results" {
        resultsLines := resultsLines + [line];
      } else if kind == "hashes" {
        hashLines := hashLines + [line];
      }
    }

    /** write_txt_file: appends the framed list to the file the type names;
        any type other than "results" and "hashes" raises before writing. */
    method WriteTxtFile(kind: string) returns (r: Outcome)
      modifies this`resultsFile, this`hashesFile
      ensures r.Done? <==> kind == "results" || kind == "hashes"
      ensures r.Failed? ==> r.error == FileType
      ensures resultsFile == old(resultsFile) + (if kind == "results" then Frame(resultsLines) else "")
      ensures hashesFile == old(hashesFile) + (if kind == "hashes" then Frame(hashLines) else "")
    {
      r := Done;
      if kind == "results" {
        resultsFile := AppendFramed(resultsFile, resultsLines);
      } else if kind == "hashes" {
        hashesFile := AppendFramed(hashesFile, hashLines);
      } else {
        r := Failed(FileType);
      }
    }

    /** The comparison stage of main: read both received files back, map hashes to
        chunks, compare with the reference lines, render the report and
        push it. `names` is the directory listing, `refLines` the lines of
        linux-hashes.txt. */
    method CompareHashes(hashesText: string, receiveText: string, names: seq<string>, refLines: seq<string>)
      returns (r: Outcome, scratch: map<string, string>)
      modifies this`resultsLines, this`hashLines
      ensures var hb, ab := ParseText(hashesText), ParseText(receiveText);
        var b := Min(|hb|, |ab|);
        var keys := Pairs(hb[..b], ab[..b]).Keys;
        var matched, linux := MatchedSlots(hb, keys, |names|, refLines), LinuxSlots(|names|, refLines);
        && scratch == ScratchFiles(ab[..b])
        && (r.Done? <==> ReconcileOk(hb, keys, |names|, refLines) &&
                         forall i :: 0 <= i < |names| ==> ReportLine(names, hb, matched, linux, i).Ok?)
        && (r.Done? ==> resultsLines == old(resultsLines) + Report(names, hb, matched, linux) + ["\n"])
        && (r.Failed? ==> resultsLines == old(resultsLines))
      ensures hashLines == old(hashLines)
    {
      var hashesBuffer := ReadLines(hashesText);
      var asciiBuffer := ReadLines(receiveText);
      var dict;
      dict, scratch := MapHashesToText(hashesBuffer, asciiBuffer);
      var found, matched, linux := Reconcile(hashesBuffer, dict.Keys, |names|, refLines);
      if found.Failed? {
        r := found;
        return;
      }
      var report := ReportLines(names, hashesBuffer, matched, linux);
      if report.Raised? {
        r := Failed(report.error);
        return;
      }
      PushReport(report.value);
      r := Done;
    }

    /** Pushing the report: every line, then a blank separator. */
    method PushReport(report: seq<string>)
      modifies this`resultsLines, this`hashLines
      ensures resultsLines == old(resultsLines) + report + ["\n"]
      ensures hashLines == old(hashLines)
    {
      var i := 0;
      while i < |report|
        invariant 0 <= i <= |report|
        invariant resultsLines == old(resultsLines) + report[..i]
        invariant hashLines == old(hashLines)
      {
        assert report[..i + 1] == report[..i] + [report[i]];
        PushText(report[i], "results");
        i := i + 1;
      }
      assert report[..i] == report;
      PushText("\n", "results");
    }
  }
}
