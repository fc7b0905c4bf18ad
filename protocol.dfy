/** The broker's text protocol: requests are fields separated by `|`, with
    the command first, then the application id and the topic. */
module Protocol {
  import opened Wrappers
  import opened Subscriptions

  const Separator := '|'

  const InvalidFormat := "ERROR|Formato de mensaje inválido"
  const InvalidAppId := "ERROR|AppID inválido"
  const InvalidPublish := "ERROR|Formato de mensaje inválido para PUBLISH"
  const UnknownCommand := "ERROR|Comando desconocido"

  /** The pieces of `s` between separators, empty pieces included, as
      string.Split with one separator character returns them. */
  function Split(s: string): (parts: seq<string>)
    ensures |parts| >= 1
  {
    if s == [] then [[]]
    else
      var rest := Split(s[1..]);
      if s[0] == Separator then [[]] + rest
      else [[s[0]] + rest[0]] + rest[1..]
  }

  /** The pieces of `parts` with a separator between each two. */
  function Join(parts: seq<string>): string
  {
    if parts == [] then []
    else if |parts| == 1 then parts[0]
    else parts[0] + [Separator] + Join(parts[1..])
  }

  /** No piece Split returns holds a separator. */
  lemma {:induction false} SplitPieces(s: string)
    ensures forall i :: 0 <= i < |Split(s)| ==> Separator !in Split(s)[i]
  {
    if s != [] {
      SplitPieces(s[1..]);
    }
  }

  /** Joining the pieces again gives back the split text. */
  lemma {:induction false} JoinSplit(s: string)
    ensures Join(Split(s)) == s
  {
    if s != [] {
      JoinSplit(s[1..]);
      var rest := Split(s[1..]);
      if s[0] == Separator {
        assert Split(s) == [[]] + rest;
        assert Join(Split(s)) == [] + [Separator] + Join(rest);
      } else if |rest| == 1 {
        assert Join(Split(s)) == [s[0]] + rest[0];
      } else {
        assert Join(rest) == rest[0] + [Separator] + Join(rest[1..]);
        assert Split(s)[1..] == rest[1..];
        assert Join(Split(s)) == [s[0]] + rest[0] + [Separator] + Join(rest[1..]);
      }
    }
  }

  /** A separator-free prefix extends the first piece and nothing else. */
  lemma {:induction false} SplitPrefix(p: string, t: string)
    requires Separator !in p
    ensures Split(p + t) == [p + Split(t)[0]] + Split(t)[1..]
  {
    if p != [] {
      assert (p + t)[1..] == p[1..] + t;
      SplitPrefix(p[1..], t);
      assert [p[0]] + (p[1..] + Split(t)[0]) == p + Split(t)[0];
    } else {
      assert p + t == t && p + Split(t)[0] == Split(t)[0];
      assert Split(t) == [Split(t)[0]] + Split(t)[1..];
    }
  }

  /** Splitting separator-free pieces joined together gives back the
      pieces. */
  lemma {:induction false} SplitJoin(parts: seq<string>)
    requires |parts| >= 1
    requires forall i :: 0 <= i < |parts| ==> Separator !in parts[i]
    ensures Split(Join(parts)) == parts
  {
    if |parts| == 1 {
      SplitPrefix(parts[0], []);
      assert parts[0] + [] == parts[0];
    } else {
      SplitJoin(parts[1..]);
      var t := [Separator] + Join(parts[1..]);
      assert t[1..] == Join(parts[1..]);
      assert Split(t) == [[]] + parts[1..];
      SplitPrefix(parts[0], t);
      assert parts[0] + [Separator] + Join(parts[1..]) == parts[0] + t;
      assert Split(t)[0] == [] && Split(t)[1..] == parts[1..];
      assert parts[0] + [] == parts[0];
      assert parts == [parts[0]] + parts[1..];
    }
  }

  /** What a request asks the broker to do. PUBLISH carries the message text
      and the application the message is attributed to. */
  datatype Command = Subscribe | Unsubscribe | Publish(content: string, sender: Guid) | Receive

  /** A decoded request: a command from application `appId` on topic
      `topicName`. */
  datatype Request = Request(command: Command, appId: Guid, topicName: string)

  /** The sender of a publication: the application named in the optional
      fifth field when that field parses, else the requesting application. */
  function SenderOf(parts: seq<string>, appId: Guid, parse: string -> Option<Guid>): Guid
  {
    if |parts| >= 5 && parse(parts[4]).Some? then parse(parts[4]).value else appId
  }

  /** Decodes the request text `message`; `parse` is the runtime's Guid
      parser, None where it throws. The errors are checked in the order of
      the dispatcher: too few fields, a bad application id, a PUBLISH
      without content, an unknown command. */
  function Decode(message: string, parse: string -> Option<Guid>): Result<Request>
  {
    var parts := Split(message);
    if |parts| < 3 then Error(InvalidFormat)
    else
      match parse(parts[1])
      case None => Error(InvalidAppId)
      case Some(appId) =>
        var topicName := parts[2];
        if parts[0] == "SUBSCRIBE" then Ok(Request(Subscribe, appId, topicName))
        else if parts[0] == "UNSUBSCRIBE" then Ok(Request(Unsubscribe, appId, topicName))
        else if parts[0] == "PUBLISH" then
          if |parts| < 4 then Error(InvalidPublish)
          else Ok(Request(Publish(parts[3], SenderOf(parts, appId, parse)), appId, topicName))
        else if parts[0] == "RECEIVE" then Ok(Request(Receive, appId, topicName))
        else Error(UnknownCommand)
  }

  /** The request text a client sends for `r`, with `show` printing an id.
      A publication attributed to its own requester is sent in the client's
      four-field form; any other sender goes in a fifth field. */
  function Encode(r: Request, show: Guid -> string): string
  {
    var head := [show(r.appId), r.topicName];
    match r.command
    case Subscribe => Join(["SUBSCRIBE"] + head)
    case Unsubscribe => Join(["UNSUBSCRIBE"] + head)
    case Publish(content, sender) =>
      if sender == r.appId then Join(["PUBLISH"] + head + [content])
      else Join(["PUBLISH"] + head + [content, show(sender)])
    case Receive => Join(["RECEIVE"] + head)
  }

  /** The fields of `r` that it carries as text hold no separator. */
  predicate Printable(r: Request)
  {
    && Separator !in r.topicName
    && (r.command.Publish? ==> Separator !in r.command.content)
  }

  /** Decoding what a client encodes gives back its request, provided ids
      print without separators and parse back to themselves. */
  lemma DecodeEncode(r: Request, parse: string -> Option<Guid>, show: Guid -> string)
    requires forall g :: Separator !in show(g) && parse(show(g)) == Some(g)
    requires Printable(r)
    ensures Decode(Encode(r, show), parse) == Ok(r)
  {
    var head := [show(r.appId), r.topicName];
    var fields := match r.command
      case Subscribe => ["SUBSCRIBE"] + head
      case Unsubscribe => ["UNSUBSCRIBE"] + head
      case Publish(content, sender) =>
        if sender == r.appId then ["PUBLISH"] + head + [content]
        else ["PUBLISH"] + head + [content, show(r.command.sender)]
      case Receive => ["RECEIVE"] + head;
    assert Encode(r, show) == Join(fields);
    SplitJoin(fields);
  }

  /** Requests of fewer than three fields are rejected as malformed, whatever
      they hold. */
  lemma ShortRequestRejected(message: string, parse: string -> Option<Guid>)
    ensures |Split(message)| < 3 ==> Decode(message, parse) == Error(InvalidFormat)
    ensures Separator !in message ==> Decode(message, parse) == Error(InvalidFormat)
  {
    if Separator !in message {
      SplitPrefix(message, []);
      assert message + [] == message;
    }
  }
}
