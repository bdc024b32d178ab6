/** One cycle of the WebSocket server's capture loop (`captureAndBroadcastAudio`
    in AudioWebSocketServer.java) and the text of the messages it broadcasts.
    The dBFS and dBSPL values are doubles computed from the integer sum of
    squares and the sample count; their formulas are floating point and are
    taken as given functions that yield either NaN or the value's text. */
module Publish {
  import opened RmsLevel
  import opened Broadcast
  import opened Wrappers

  /** A computed double as the cycle sees it: NaN, or a number together with
      the text string concatenation gives it. */
  datatype Reading = NaN | Number(text: string)

  const DBFS: string := "dBFS"
  const DBSPL: string := "dBSPL"

  const Opening: string := "{\"name\": \""
  const Separator: string := "\", \"value\": "
  const Closing: string := "}"

  /** The message `{"name": "<name>", "value": <valueText>}`. */
  function Message(name: string, valueText: string): string {
    Opening + (name + (Separator + (valueText + Closing)))
  }

  /** The position of the first `c` in `s`, if any. */
  function IndexOf(s: string, c: char): (r: Option<nat>)
    ensures r.None? <==> c !in s
    ensures r.Some? ==> r.value < |s| && s[r.value] == c && c !in s[..r.value]
  {
    if s == [] then None
    else if s[0] == c then Some(0)
    else
      var r := IndexOf(s[1..], c);
      if r.None? then None
      else
        assert s[..r.value + 1] == [s[0]] + s[1..][..r.value];
        Some(r.value + 1)
  }

  /** Reads a message back into its name and value text: the name runs up to
      the first quote after the opening, the value up to the closing brace. */
  function ParseMessage(text: string): Option<(string, string)> {
    Fields(text, Opening, Separator, Closing)
  }

  /** The two fields of `text` framed as `opening name separator value closing`,
      where the name ends at the first quote. */
  function Fields(text: string, opening: string, separator: string, closing: string): Option<(string, string)> {
    if |text| < |opening| || text[..|opening|] != opening then None
    else
      var rest := text[|opening|..];
      var q := IndexOf(rest, '"');
      if q.None? then None
      else
        var tail := rest[q.value..];
        if |tail| < |separator| + |closing| || tail[..|separator|] != separator
          || tail[|tail| - |closing|..] != closing then None
        else Some((rest[..q.value], tail[|separator|..|tail| - |closing|]))
  }

  lemma Split(a: string, b: string)
    ensures (a + b)[..|a|] == a && (a + b)[|a|..] == b
  {
  }

  /** The first `c` in `a + b` is the first of `b` when `a` has none. */
  lemma {:induction false} IndexOfAfter(a: string, b: string, c: char)
    requires c !in a && |b| > 0 && b[0] == c
    ensures IndexOf(a + b, c) == Some(|a|)
  {
    if a != [] {
      assert (a + b)[1..] == a[1..] + b;
      IndexOfAfter(a[1..], b, c);
    }
  }

  /** A message whose name has no quote reads back as the name and the value
      text it was built from. */
  lemma MessageRoundTrip(name: string, valueText: string)
    requires '"' !in name
    ensures ParseMessage(Message(name, valueText)) == Some((name, valueText))
  {
    assert |Separator| > 0 && Separator[0] == '"';
    FieldsRoundTrip(Opening, name, Separator, valueText, Closing);
  }

  lemma FieldsRoundTrip(opening: string, name: string, separator: string, value: string, closing: string)
    requires '"' !in name && |separator| > 0 && separator[0] == '"'
    ensures Fields(opening + (name + (separator + (value + closing))), opening, separator, closing)
      == Some((name, value))
  {
    var tail := separator + (value + closing);
    var rest := name + tail;
    Split(opening, rest);
    NameThenTail(name, tail);
    Pieces(separator, value, closing);
    FieldsOf(opening + rest, opening, separator, closing, rest, |name|, tail, name, value);
  }

  /** The name ends at the first quote of `name + tail` when `tail` opens with one. */
  lemma NameThenTail(name: string, tail: string)
    requires '"' !in name && |tail| > 0 && tail[0] == '"'
    ensures IndexOf(name + tail, '"') == Some(|name|)
    ensures (name + tail)[..|name|] == name && (name + tail)[|name|..] == tail
  {
    IndexOfAfter(name, tail, '"');
    Split(name, tail);
  }

  /** `Fields` when each of its checks is known to pass. */
  lemma FieldsOf(text: string, opening: string, separator: string, closing: string,
                 rest: string, q: nat, tail: string, name: string, value: string)
    requires |opening| <= |text| && text[..|opening|] == opening && text[|opening|..] == rest
    requires IndexOf(rest, '"') == Some(q) && rest[q..] == tail
    requires |tail| >= |separator| + |closing| && tail[..|separator|] == separator
    requires tail[|tail| - |closing|..] == closing
    requires rest[..q] == name && tail[|separator|..|tail| - |closing|] == value
    ensures Fields(text, opening, separator, closing) == Some((name, value))
  {
  }

  /** The three pieces of `a + (b + c)`. */
  lemma Pieces(a: string, b: string, c: string)
    ensures var t := a + (b + c);
      t[..|a|] == a && t[|a|..|t| - |c|] == b && t[|t| - |c|..] == c
  {
  }

  /** Conversely, a text that parses is exactly the message of what it parses to. */
  lemma ParsedIsMessage(text: string)
    requires ParseMessage(text).Some?
    ensures '"' !in ParseMessage(text).value.0
    ensures Message(ParseMessage(text).value.0, ParseMessage(text).value.1) == text
  {
    FieldsReassemble(text, Opening, Separator, Closing);
  }

  /** Cutting a text into its fields and gluing them back gives the text. */
  lemma FieldsReassemble(text: string, opening: string, separator: string, closing: string)
    requires Fields(text, opening, separator, closing).Some?
    ensures var f := Fields(text, opening, separator, closing).value;
      '"' !in f.0 && opening + (f.0 + (separator + (f.1 + closing))) == text
  {
    var rest := text[|opening|..];
    var q := IndexOf(rest, '"').value;
    var tail := rest[q..];
    var after := tail[|separator|..];
    var name := rest[..q];
    var value := after[..|after| - |closing|];
    assert value == tail[|separator|..|tail| - |closing|];
    assert Fields(text, opening, separator, closing).value == (name, value);
    Glue(text, opening, rest);
    Glue(rest, name, tail);
    Glue(tail, separator, after);
    Glue(after, value, closing);
  }

  /** `s` is `a + b` when `a` is its prefix and `b` the rest. */
  lemma Glue(s: string, a: string, b: string)
    requires |a| <= |s| && s[..|a|] == a && s[|a|..] == b
    ensures a + b == s
  {
  }

  /** The cycle's publishing rule: nothing for an empty or failed read,
      nothing when dBFS is NaN, otherwise the dBFS message, then the dBSPL
      message unless dBSPL is NaN. */
  function CycleMessages(bytesRead: int, dBFS: Reading, dBSPL: Reading): seq<string> {
    if bytesRead <= 0 || dBFS.NaN? then []
    else if dBSPL.NaN? then [Message(DBFS, dBFS.text)]
    else [Message(DBFS, dBFS.text), Message(DBSPL, dBSPL.text)]
  }

  /** What the rule promises, stated through what a subscriber reads: at most
      two messages; the first, when any, carries dBFS and its value; a second
      one exists exactly when both values are numbers, and carries dBSPL. */
  lemma PublishRule(bytesRead: int, dBFS: Reading, dBSPL: Reading)
    ensures var ms := CycleMessages(bytesRead, dBFS, dBSPL);
      (|ms| == 0 <==> bytesRead <= 0 || dBFS.NaN?) &&
      (|ms| == 2 <==> bytesRead > 0 && dBFS.Number? && dBSPL.Number?) &&
      |ms| <= 2 &&
      (|ms| >= 1 ==> ParseMessage(ms[0]) == Some((DBFS, dBFS.text))) &&
      (|ms| == 2 ==> ParseMessage(ms[1]) == Some((DBSPL, dBSPL.text)))
  {
    MessageRoundTrip(DBFS, if dBFS.Number? then dBFS.text else "");
    MessageRoundTrip(DBSPL, if dBSPL.Number? then dBSPL.text else "");
  }

  /** The attempts a sequence of broadcasts makes, one broadcast after another. */
  function FanoutAll(ss: seq<SessionId>, messages: seq<string>, send: (SessionId, string) -> bool): (ds: seq<Delivery>)
    ensures |ds| == |messages| * |ss|
  {
    if messages == [] then []
    else FanoutAll(ss, messages[..|messages| - 1], send) + Fanout(ss, messages[|messages| - 1], send)
  }

  /** One pass of the capture loop after `read` returned `bytesRead`: the
      deliveries are those of broadcasting the cycle's messages, in order, to
      the current sessions; `continue` on NaN skips the rest of the pass.
      `dbfsOf` and `dbsplOf` stand for `calculateDBFS` and `calculateDBSPL`
      applied to the sum of squares and the sample count. */
  method CaptureCycle(hub: SessionSet, buffer: array<bv8>, bytesRead: int,
                      dbfsOf: (int, int) -> Reading, dbsplOf: (int, int) -> Reading,
                      send: (SessionId, string) -> bool)
    returns (deliveries: seq<Delivery>)
    requires RmsLevel.ReadableRead(buffer.Length, bytesRead) && buffer.Length <= RmsLevel.BUFFER_SIZE
    ensures var sum := SumIntSquares(Words(buffer[..], bytesRead));
      var count := SampleCount(bytesRead);
      deliveries == FanoutAll(hub.sessions, CycleMessages(bytesRead, dbfsOf(sum, count), dbsplOf(sum, count)), send)
  {
    deliveries := [];
    if bytesRead > 0 {
      var sum, sampleCount := SumOfSquares(buffer, bytesRead);
      var dBFS := dbfsOf(sum, sampleCount);
      if dBFS.NaN? {
        return;
      }
      var sent := hub.Broadcast(Message(DBFS, dBFS.text), send);
      deliveries := sent;
      assert [Message(DBFS, dBFS.text)][..0] == [];
      sum, sampleCount := SumOfSquares(buffer, bytesRead);
      var dBSPL := dbsplOf(sum, sampleCount);
      if dBSPL.NaN? {
        return;
      }
      sent := hub.Broadcast(Message(DBSPL, dBSPL.text), send);
      deliveries := deliveries + sent;
      assert [Message(DBFS, dBFS.text), Message(DBSPL, dBSPL.text)][..1] == [Message(DBFS, dBFS.text)];
    }
  }

  /** In a cycle that publishes both values, the dBFS round to all sessions
      comes first: session k's dBFS attempt is at position k and its dBSPL
      attempt at position |ss| + k. */
  lemma {:induction false} CycleOrder(ss: seq<SessionId>, bytesRead: int, dBFS: Reading, dBSPL: Reading,
                                      send: (SessionId, string) -> bool, k: nat)
    requires bytesRead > 0 && dBFS.Number? && dBSPL.Number? && k < |ss|
    ensures var ds := FanoutAll(ss, CycleMessages(bytesRead, dBFS, dBSPL), send);
      ds[k] == Delivery(ss[k], Message(DBFS, dBFS.text), send(ss[k], Message(DBFS, dBFS.text))) &&
      ds[|ss| + k] == Delivery(ss[k], Message(DBSPL, dBSPL.text), send(ss[k], Message(DBSPL, dBSPL.text)))
  {
    var ms := CycleMessages(bytesRead, dBFS, dBSPL);
    assert ms[..1] == [ms[0]] && ms[..1][..0] == [];
    assert FanoutAll(ss, ms, send) == Fanout(ss, ms[0], send) + Fanout(ss, ms[1], send);
  }
}
