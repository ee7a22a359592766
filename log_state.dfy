/**
 * `ConnectionStatePlugin` of the log viewer: a map from server kind to
 * connection status, updated by each log line and rendered as a tree node.
 * The TypeScript and JavaScript versions share `onLog`; they differ in
 * `format` (`Format` and `FormatWithIcons`).
 */
module LogState {
  import opened Wrappers
  import opened JsStrings
  import opened JsMaps

  /** The fields of a log line that `onLog` reads. */
  datatype LogLine = LogLine(level: string, message: string)

  /** `message.split('|')[1]`: the second `|`-separated piece, `undefined`
      when the message has no `|`. */
  function ServerKind(message: string): Option<string>
  {
    var pieces := Split(message, '|');
    if |pieces| >= 2 then Some(pieces[1]) else None
  }

  /** A server kind inside a template literal: `undefined` prints as such. */
  function KindText(kind: Option<string>): string
  {
    if kind.Some? then kind.value else "undefined"
  }

  /** The status map after `onLog(log)`. */
  function NextStatus(status: JsMap<Option<string>, bool>, log: LogLine): JsMap<Option<string>, bool>
  {
    if log.level == "ProductOpen" then Empty()
    else if !Includes(log.message, "SocketMainConnection") then status
    else
      var connected := Includes(log.message, "Logged");
      var lost := Includes(log.message, "lost");
      if connected || lost then status.Set(ServerKind(log.message), connected) else status
  }

  /** A `ProductOpen` line forgets every server. */
  lemma ResetClears(status: JsMap<Option<string>, bool>, log: LogLine)
    requires log.level == "ProductOpen"
    ensures NextStatus(status, log).keys == [] && forall k :: NextStatus(status, log).Get(k) == None
  {
  }

  /** Lines that are not about the main socket, and main-socket lines that
      mention neither `Logged` nor `lost`, change nothing. */
  lemma OtherLinesIgnored(status: JsMap<Option<string>, bool>, log: LogLine)
    requires log.level != "ProductOpen"
    requires !Includes(log.message, "SocketMainConnection")
             || (!Includes(log.message, "Logged") && !Includes(log.message, "lost"))
    ensures NextStatus(status, log) == status
  {
  }

  /** A main-socket line sets its server's status to whether it says
      `Logged` (so `lost` alone means disconnected), and leaves the other
      servers and the order of the servers seen before as they were. */
  lemma StatusLineSets(status: JsMap<Option<string>, bool>, log: LogLine)
    requires status.Valid() && log.level != "ProductOpen" && Includes(log.message, "SocketMainConnection")
    requires Includes(log.message, "Logged") || Includes(log.message, "lost")
    ensures var next := NextStatus(status, log);
            && next.Valid()
            && next.Get(ServerKind(log.message)) == Some(Includes(log.message, "Logged"))
            && (forall k :: k != ServerKind(log.message) ==> next.Get(k) == status.Get(k))
            && status.keys <= next.keys
  {
  }

  /** The kind is the text between the first and second `|`. */
  lemma ServerKindBetweenBars(a: string, b: string, rest: string)
    requires Free(a, '|') && Free(b, '|')
    ensures ServerKind(a + "|" + b + "|" + rest) == Some(b)
  {
    SplitAt(a, b + "|" + rest, '|');
    assert a + "|" + b + "|" + rest == a + ['|'] + (b + "|" + rest);
    SplitAt(b, rest, '|');
  }

  /** A message without `|` has no kind: the entry goes under `undefined`. */
  lemma NoBarNoKind(message: string)
    requires Free(message, '|')
    ensures ServerKind(message) == None
  {
    assert FindChar(message, '|') == |message|;
  }

  /** One node of the rendered tree. */
  datatype FormatNode = FormatNode(key: string, text: string, icon: Option<string>, children: seq<FormatNode>)

  /** The label of one server in the TypeScript `format`. */
  function StatusLabel(kind: Option<string>, connected: bool): string
  {
    KindText(kind) + " " + (if connected then "Connected" else "Disconnected")
  }

  /** The icon of one server in the JavaScript `format`. */
  function StatusIcon(connected: bool): string
  {
    if connected then "pi pi-check pi-fw" else "pi pi-times pi-fw"
  }

  class ConnectionStatePlugin {
    var serverStatus: JsMap<Option<string>, bool>

    ghost predicate Valid()
      reads this
    {
      serverStatus.Valid()
    }

    constructor ()
      ensures Valid() && serverStatus.keys == []
    {
      serverStatus := Empty();
    }

    /** `onLog(log)`: clear on `ProductOpen`; otherwise, for a main-socket
        line saying `Logged` or `lost`, record the server's status. */
    method OnLog(log: LogLine)
      requires Valid()
      modifies this
      ensures Valid() && serverStatus == NextStatus(old(serverStatus), log)
    {
      if log.level == "ProductOpen" {
        serverStatus := Empty();
        return;
      }
      if !Includes(log.message, "SocketMainConnection") {
        return;
      }
      var isConnected := Includes(log.message, "Logged");
      var isNotConnected := Includes(log.message, "lost");
      if isConnected || isNotConnected {
        serverStatus := serverStatus.Set(ServerKind(log.message), isConnected);
      }
    }

    /** `format()` of the TypeScript plugin: one child per server, in the
        order the servers were first seen, labelled with its status. */
    function Format(): (r: FormatNode)
      requires Valid()
      reads this
      ensures r.key == "connection" && r.text == "Connection"
      ensures |r.children| == |serverStatus.keys|
      ensures forall i :: 0 <= i < |r.children| ==>
                var kind := serverStatus.keys[i];
                r.children[i] == FormatNode("connection, " + KindText(kind),
                                            StatusLabel(kind, serverStatus.vals[kind]), None, [])
    {
      var entries := serverStatus.Entries();
      FormatNode("connection", "Connection", None,
        seq(|entries|, i requires 0 <= i < |entries| =>
          FormatNode("connection, " + KindText(entries[i].0), StatusLabel(entries[i].0, entries[i].1), None, [])))
    }

    /** `format()` of the JavaScript plugin: the same children keyed
        `connection_<server>`, labelled with the server alone and marked by
        an icon. */
    function FormatWithIcons(): (r: FormatNode)
      requires Valid()
      reads this
      ensures r.key == "connection" && r.text == "Connection"
      ensures |r.children| == |serverStatus.keys|
      ensures forall i :: 0 <= i < |r.children| ==>
                var kind := serverStatus.keys[i];
                r.children[i] == FormatNode("connection_" + KindText(kind), KindText(kind),
                                            Some(StatusIcon(serverStatus.vals[kind])), [])
    {
      var entries := serverStatus.Entries();
      FormatNode("connection", "Connection", None,
        seq(|entries|, i requires 0 <= i < |entries| =>
          FormatNode("connection_" + KindText(entries[i].0), KindText(entries[i].0), Some(StatusIcon(entries[i].1)), [])))
    }
  }

  /** A server recorded as connected is rendered as connected. */
  lemma ConnectedIsRendered(p: ConnectionStatePlugin, k: Option<string>)
    requires p.Valid() && p.serverStatus.Get(k) == Some(true)
    ensures exists i :: 0 <= i < |p.Format().children| &&
              p.Format().children[i].text == KindText(k) + " Connected"
  {
    var i :| 0 <= i < |p.serverStatus.keys| && p.serverStatus.keys[i] == k;
    assert p.Format().children[i].text == StatusLabel(k, true);
  }

  /** After a main-socket `Logged` line, the TypeScript rendering shows
      that server as connected. */
  lemma LoggedLineShowsConnected(prev: JsMap<Option<string>, bool>, log: LogLine, p: ConnectionStatePlugin)
    requires prev.Valid() && log.level != "ProductOpen"
    requires Includes(log.message, "SocketMainConnection") && Includes(log.message, "Logged")
    requires p.Valid() && p.serverStatus == NextStatus(prev, log)
    ensures exists i :: 0 <= i < |p.Format().children| &&
              p.Format().children[i].text == KindText(ServerKind(log.message)) + " Connected"
  {
    StatusLineSets(prev, log);
    ConnectedIsRendered(p, ServerKind(log.message));
  }
}
