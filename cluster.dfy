/**
 * The namespace registry and front end (src/Cluster.js): a request is routed to a
 * command for the node registered under the request's namespace, the node answers it,
 * and `send` turns the node's reply into a response.
 */
module CacheCluster {
  import opened CacheSpec
  import opened CacheNode

  /** The parameters a route hands to a `cmd` builder; absent ones as in `Command`. */
  datatype Params = Params(key: Key, value: Value, expire: int)

  const NO_PARAMS: Params := Params("", "", 0)

  /** The ops `cmd` has builders for, in the order the source lists them. */
  const OPS: seq<string> := ["get", "set", "add", "remove", "info", "flush"]

  /** `cmd[op](params)`: the record `{op, ...params}`. */
  function Cmd(op: string, params: Params): Command
  {
    Command(op, params.key, params.value, params.expire)
  }

  /** The parameters a command carries. */
  function ParamsOf(c: Command): Params
  {
    Params(c.key, c.value, c.expire)
  }

  /**
   * Every builder sets the op tag to its own name, one `processOp` dispatches, and carries
   * all the parameters through.
   */
  lemma CmdCarries(op: string, params: Params)
    requires op in OPS
    ensures Cmd(op, params).op == op && Supported(Cmd(op, params).op)
    ensures ParamsOf(Cmd(op, params)) == params
    ensures forall c: Command :: c.op == op && ParamsOf(c) == params ==> c == Cmd(op, params)
  {
  }

  /** What goes back to the client: a status and either a text or the reply as JSON. */
  datatype Body = Text(text: string) | Json(reply: Reply)
  datatype Response = Response(status: int, body: Body)

  /** `send`: a truthy `code` is the status and `error` the body; else a success with the reply. */
  function Send(r: Reply): Response
  {
    if Code(r) != 0 then Response(Code(r), Text(r.error)) else Response(200, Json(r))
  }

  /**
   * On a node's reply, `send` answers 404 or 400 with the cache's message exactly when the
   * cache threw; everything else, an unsupported op included, is a 200 carrying the reply.
   */
  lemma SendReply(e: Engine, c: Command, now: int)
    requires Valid(e)
    ensures var r := Process(e, c, now).result;
      && (Send(r).status != 200 <==> r.Failure?)
      && (r.Failure? ==> Send(r) == Response(r.code, Text(r.error)) && r.code in {400, 404})
      && (!r.Failure? ==> Send(r) == Response(200, Json(r)))
      && (!Supported(c.op) ==> Send(r) == Response(200, Json(Unsupported(NotSupported(c.op)))))
  {
    ProcessCodes(e, c, now);
  }

  datatype Verb = GET | POST | PUT | DELETE

  /** A request: its verb, the segments of its path and the `value` and `expire` of its body. */
  datatype Request = Request(verb: Verb, path: seq<string>, value: Value, expire: int)

  /** A routed request: the namespace it names and the command for that namespace's node. */
  datatype Routed = Routed(namespace: string, command: Command)

  /** The route table of `createRoutes`; a parameter segment matches any non-empty segment. */
  function Route(req: Request): Option<Routed>
  {
    if |req.path| == 3 && req.path[0] == "v1" && req.path[1] != "" && req.path[2] != "" then
      var ns, key := req.path[1], req.path[2];
      match req.verb
      case GET => Some(Routed(ns, Cmd("get", Params(key, "", 0))))
      case POST => Some(Routed(ns, Cmd("add", Params(key, req.value, req.expire))))
      case PUT => Some(Routed(ns, Cmd("set", Params(key, req.value, req.expire))))
      case DELETE => Some(Routed(ns, Cmd("remove", Params(key, "", 0))))
    else if |req.path| == 4 && req.path[0] == "v1" && req.path[1] == "manage" && req.path[2] != "" then
      if req.verb == GET && req.path[3] == "info" then Some(Routed(req.path[2], Cmd("info", NO_PARAMS)))
      else if req.verb == POST && req.path[3] == "flush" then Some(Routed(req.path[2], Cmd("flush", NO_PARAMS)))
      else None
    else None
  }

  /** The request each row of the table expects for a command to namespace `ns`. */
  function RequestFor(ns: string, c: Command): Request
  {
    if c.op == "get" then Request(GET, ["v1", ns, c.key], "", 0)
    else if c.op == "add" then Request(POST, ["v1", ns, c.key], c.value, c.expire)
    else if c.op == "set" then Request(PUT, ["v1", ns, c.key], c.value, c.expire)
    else if c.op == "remove" then Request(DELETE, ["v1", ns, c.key], "", 0)
    else if c.op == "info" then Request(GET, ["v1", "manage", ns, "info"], "", 0)
    else Request(POST, ["v1", "manage", ns, "flush"], "", 0)
  }

  /** The parameters of a command that its route carries: the key of the keyed ops, the body of the writes. */
  function Carried(c: Command): Command
  {
    if c.op in {"get", "remove"} then Cmd(c.op, Params(c.key, "", 0))
    else if c.op in {"add", "set"} then c
    else Cmd(c.op, NO_PARAMS)
  }

  /**
   * The table has a row for every op: the request built for a command routes back to that
   * command (with what its route carries), to the same namespace.
   */
  lemma RouteRows(ns: string, c: Command)
    requires ns != "" && c.key != "" && Supported(c.op)
    ensures Route(RequestFor(ns, c)) == Some(Routed(ns, Carried(c)))
  {
  }

  /**
   * Every routed request is one of the six rows: its op is one `processOp` supports, keyed
   * ops take the key from the last segment, and only `add` and `set` take the body.
   */
  lemma RouteSupported(req: Request)
    ensures var rt := Route(req);
      rt.Some? ==>
        && Supported(rt.value.command.op)
        && rt.value.command == Carried(rt.value.command)
        && req == RequestFor(rt.value.namespace, rt.value.command).(value := req.value, expire := req.expire)
        && (rt.value.command.op in {"add", "set"} ==>
              rt.value.command.value == req.value && rt.value.command.expire == req.expire)
  {
    var rt := Route(req);
    if rt.Some? {
      var ns := rt.value.namespace;
      if |req.path| == 3 {
        assert req.path == ["v1", ns, req.path[2]];
      } else {
        assert req.path == ["v1", "manage", ns, req.path[3]];
      }
    }
  }

  /** `findNode`: the node registered under the namespace, or the thrown message. */
  datatype Lookup = Found(node: Node) | Missing(message: string)

  function FindNode(namespace: string, nodes: map<string, Node>): (r: Lookup)
    ensures r.Found? <==> namespace in nodes
    ensures r.Found? ==> r.node == nodes[namespace]
    ensures r.Missing? ==> r.message == "Node not found: " + namespace
  {
    if namespace in nodes then Found(nodes[namespace]) else Missing("Node not found: " + namespace)
  }

  /** How a request ends: no route, the thrown lookup failure, a response, or a remote call. */
  datatype Outcome =
    | NoRoute
    | Thrown(message: string)
    | Answered(response: Response)
    | Forwarded(url: string, command: Command)

  class Cluster {
    /** `this.nodes`: the registry from namespace to node. */
    var nodes: map<string, Node>

    constructor ()
      ensures nodes == map[]
    {
      nodes := map[];
    }

    /** Every node is registered under its own name. */
    predicate Named()
      reads this
    {
      forall ns :: ns in nodes ==> nodes[ns].name == ns
    }

    /** `addNode`: register the node under its name, replacing any node of that name. */
    method AddNode(node: Node)
      modifies this
      ensures node.name in nodes && nodes[node.name] == node
      ensures nodes.Keys == old(nodes.Keys) + {node.name}
      ensures forall ns :: ns in old(nodes) && ns != node.name ==> nodes[ns] == old(nodes)[ns]
      ensures old(Named()) ==> Named()
    {
      nodes := nodes[node.name := node];
    }

    /**
     * A route handler of `createRoutes`: route the request, find the namespace's node, send
     * it the command and pass its reply to `send`.
     */
    method Handle(req: Request, now: int) returns (out: Outcome)
      requires forall ns :: ns in nodes ==> nodes[ns].cache.Valid()
      modifies set ns | ns in nodes :: nodes[ns].cache
      ensures nodes == old(nodes)
      ensures var rt := Route(req);
        && (rt.None? ==> out == NoRoute)
        && (rt.Some? && rt.value.namespace !in nodes ==> out == Thrown("Node not found: " + rt.value.namespace))
        && (rt.Some? && rt.value.namespace in nodes ==>
              var n := nodes[rt.value.namespace];
              old(n.cache.Valid()) &&
              if n.mono then
                var s := Process(old(n.cache.State()), rt.value.command, now);
                n.cache.Valid() && n.cache.State() == s.engine && out == Answered(Send(s.result))
              else
                out == Forwarded(n.server, rt.value.command) && n.cache.State() == old(n.cache.State()))
    {
      var rt := Route(req);
      if rt.None? {
        return NoRoute;
      }
      var found := FindNode(rt.value.namespace, nodes);
      if found.Missing? {
        return Thrown(found.message);
      }
      var node := found.node;
      var d := node.SendCommand(rt.value.command, now);
      if d.Local? {
        return Answered(Send(d.reply));
      }
      return Forwarded(d.url, d.command);
    }
  }

  /** Registering two nodes under the same name keeps the later one: last write wins. */
  method RegisterTwice(a: Node, b: Node) returns (c: Cluster)
    requires a.name == b.name
    ensures fresh(c) && c.nodes == map[a.name := b]
  {
    c := new Cluster();
    c.AddNode(a);
    c.AddNode(b);
  }
}
