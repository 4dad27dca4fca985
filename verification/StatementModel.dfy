/** Prepared statements as the client sees them: which requests one call of find, modify or remove puts
    on the wire, what it leaves behind, and what follows for whole sessions. */
module StatementModel {
  import opened Options
  import opened Placeholders
  import opened OperationTexts
  import opened Bindings
  import opened PreparedMeaning

  /** What the client remembers of a prepared statement. */
  datatype Known = Known(id: nat, delivered: bool, finalized: bool)

  datatype Request =
    | Plain(message: Message)
    | Prepare(id: nat, template: Template)
    | Execute(id: nat, args: seq<Scalar>)

  /** How a Prepare request ends: it cannot be sent, the server prepares it, does not know the
      message (error 1047), or reports any other error. */
  datatype Reply = Lost | Prepared | Unknown | Rejected

  datatype Outcome = Statement | NoStatement | BindFail

  /** The client's statements by template, and the statements the server has prepared by id. */
  datatype Client = Client(
    supported: bool, nextId: nat, statements: map<Template, Known>, server: map<nat, Template>)

  function Fresh(): Client { Client(true, 1, map[], map[]) }

  /** One call: the operation's message, statement id and placeholders, and how the environment
      behaves. `junk` is the value of the flag `delivered_ps`, which the source does not initialise. */
  datatype Call = Call(
    message: Message, id: nat, variables: seq<Variable>, reply: Reply, junk: bool, sendOk: bool)

  function TemplateOf(call: Call): Template { ToTemplate(call.message, |call.variables|) }

  /** Required protobuf fields that a caller can leave unset. */
  predicate Initialized(m: Message) { m.limit.offset.Some? ==> m.limit.rowCount.Some? }

  /** The prepared path of find does not look at them. */
  predicate Executable(m: Message) { m.kind.Find? || Initialized(m) }

  predicate Finalized(c: Client, id: nat) {
    exists t <- c.statements :: c.statements[t].id == id && c.statements[t].finalized
  }

  // ---- one call ----

  /** The arguments in the message after the call. A session without prepared statements appends to
      what is there, unless the operation is recorded as finalised. */
  function ArgsAfter(c: Client, call: Call): seq<Scalar> {
    if c.supported then BoundPrefix(call.variables)
    else if Finalized(c, call.id) then call.message.args
    else call.message.args + BoundPrefix(call.variables)
  }

  function MessageAfter(c: Client, call: Call): Message { call.message.(args := ArgsAfter(c, call)) }

  /** The operation remembers its statement once all placeholders have a value. */
  ghost function IdAfter(c: Client, call: Call): nat {
    if !c.supported || !AllBound(call.variables) then call.id
    else if TemplateOf(call) in c.statements then c.statements[TemplateOf(call)].id
    else c.nextId
  }

  function Direct(m: Message): seq<Request> { if Initialized(m) then [Plain(m)] else [] }

  function Execution(call: Call, id: nat): seq<Request> {
    if Executable(call.message)
    then [Execute(id, ExecuteArgs(BoundPrefix(call.variables), call.message.limit))] else []
  }

  /** Everything the call sends, in order. */
  ghost function Requests(c: Client, call: Call): (r: seq<Request>)
    ensures |r| <= if c.supported then 2 else 1
    ensures !c.supported ==> forall q <- r :: q.Plain?
  {
    var t := TemplateOf(call);
    if !AllBound(call.variables) && (c.supported || !Finalized(c, call.id)) then []
    else if !c.supported then Direct(MessageAfter(c, call))
    else if t in c.statements then
      if c.statements[t].delivered then Execution(call, c.statements[t].id) else []
    else
      [Prepare(c.nextId, t)] +
      match call.reply
      case Prepared => Execution(call, c.nextId)
      case Lost => if call.junk then Execution(call, c.nextId) else []
      case Unknown => Direct(MessageAfter(c, call))
      case Rejected => []
  }

  ghost function OutcomeOf(c: Client, call: Call): Outcome {
    var r := Requests(c, call);
    if !AllBound(call.variables) && (c.supported || !Finalized(c, call.id)) then BindFail
    else if r != [] && !r[|r| - 1].Prepare? && call.sendOk then Statement
    else NoStatement
  }

  function Added(c: Client, t: Template, junk: bool): Client {
    if t in c.statements then c
    else c.(statements := c.statements[t := Known(c.nextId, junk, false)], nextId := c.nextId + 1)
  }

  function MarkedFinal(c: Client, t: Template): Client {
    if t !in c.statements then c
    else c.(statements := c.statements[t := c.statements[t].(finalized := true)])
  }

  function Answered(c: Client, t: Template, reply: Reply): Client {
    if t !in c.statements then c
    else match reply
    case Lost => c
    case Prepared =>
      c.(statements := c.statements[t := c.statements[t].(delivered := true)],
         server := c.server[c.statements[t].id := t])
    case Unknown => c.(supported := false)
    case Rejected => c.(statements := c.statements - {t})
  }

  ghost function Next(c: Client, call: Call): Client {
    var t := TemplateOf(call);
    var added := Added(c, t, call.junk);
    if !c.supported then c
    else if !AllBound(call.variables) then added
    else if t in c.statements then MarkedFinal(added, t)
    else Answered(MarkedFinal(added, t), t, call.reply)
  }

  /** Ids are positive, not reused and not shared, and what the server has under a statement's id is
      that statement, marked as delivered. */
  ghost predicate Valid(c: Client) {
    && c.nextId > 0
    && (forall t <- c.statements :: 0 < c.statements[t].id < c.nextId)
    && (forall t, u :: t in c.statements && u in c.statements && c.statements[t].id == c.statements[u].id ==> t == u)
    && (forall id <- c.server :: id < c.nextId)
    && (forall t <- c.statements :: c.statements[t].id in c.server ==>
          c.server[c.statements[t].id] == t && c.statements[t].delivered)
  }

  lemma ValidAdded(c: Client, t: Template, junk: bool)
    requires Valid(c)
    ensures Valid(Added(c, t, junk))
  {
  }

  lemma ValidMarkedFinal(c: Client, t: Template)
    requires Valid(c)
    ensures Valid(MarkedFinal(c, t))
  {
  }

  lemma ValidAnswered(c: Client, t: Template, reply: Reply)
    requires Valid(c)
    ensures Valid(Answered(c, t, reply))
  {
  }

  lemma ValidNext(c: Client, call: Call)
    requires Valid(c)
    ensures Valid(Next(c, call))
  {
    var t := TemplateOf(call);
    var added := Added(c, t, call.junk);
    ValidAdded(c, t, call.junk);
    ValidMarkedFinal(added, t);
    ValidAnswered(MarkedFinal(added, t), t, call.reply);
  }

  // ---- exactly what is sent, and when ----

  /** A session without prepared statements sends the plain request exactly when all placeholders have
      a value, or had one when the operation was finalised, and the limit does not consist of an offset
      alone; the user then gets a statement if it could be sent. */
  lemma PlainSentIff(c: Client, call: Call)
    requires !c.supported
    ensures var m, ready := call.message, AllBound(call.variables) || Finalized(c, call.id);
            && ((exists r <- Requests(c, call) :: r.Plain?)
                <==> ready && (m.limit.offset.None? || m.limit.rowCount.Some?))
            && (OutcomeOf(c, call) == BindFail <==> !ready)
            && (OutcomeOf(c, call) == Statement
                <==> ready && (m.limit.offset.None? || m.limit.rowCount.Some?) && call.sendOk)
  {
    var r := Requests(c, call);
    assert r != [] ==> r[0] in r;
  }

  /** A session with prepared statements sends a Prepare request exactly for a complete call on a new
      template, and an execution exactly if the statement counts as delivered then; modify and remove
      also need a limit that does not consist of an offset alone. */
  lemma PreparedSentIff(c: Client, call: Call)
    requires c.supported
    ensures var m, t, complete := call.message, TemplateOf(call), AllBound(call.variables);
            var isNew := t !in c.statements;
            var whole := m.limit.offset.None? || m.limit.rowCount.Some?;
            var executes := && complete && (m.kind == Find || whole)
                            && if isNew then call.reply == Prepared || (call.reply == Lost && call.junk)
                               else c.statements[t].delivered;
            var falls := complete && isNew && call.reply == Unknown && whole;
            && ((exists r <- Requests(c, call) :: r.Prepare?) <==> complete && isNew)
            && ((exists r <- Requests(c, call) :: r.Execute?) <==> executes)
            && ((exists r <- Requests(c, call) :: r.Plain?) <==> falls)
            && (OutcomeOf(c, call) == BindFail <==> !complete)
            && (OutcomeOf(c, call) == Statement <==> (executes || falls) && call.sendOk)
  {
    var r := Requests(c, call);
    assert |r| > 0 ==> r[0] in r;
    assert |r| > 1 ==> r[1] in r;
  }

  /** Support ends exactly with error 1047 in answer to a Prepare request. */
  lemma SupportEndsIff(c: Client, call: Call)
    ensures Next(c, call).supported <==>
              c.supported && !(AllBound(call.variables) && TemplateOf(call) !in c.statements && call.reply == Unknown)
  {
  }

  // ---- the same call in steps ----

  /** The client after add_message and finalize_bind of a complete call. */
  function Begun(c: Client, call: Call): Client {
    MarkedFinal(Added(c, TemplateOf(call), call.junk), TemplateOf(call))
  }

  /** How a complete call goes on once its statement is known and, if it was new, its Prepare request
      is answered. */
  datatype Continue = Throw | GoOn | FallBack | Stop

  function ContinueOf(isNew: bool, reply: Reply): Continue {
    if !isNew || reply.Lost? || reply.Prepared? then GoOn else if reply.Unknown? then FallBack else Stop
  }

  /** What it sends then: the plain request after error 1047, else the execution of a statement that
      counts as delivered. */
  function Rest(next: Continue, m: Message, vs: seq<Variable>, statement: Known): (r: seq<Request>)
    ensures forall q <- r :: !q.Prepare?
  {
    match next
    case FallBack => Direct(m)
    case GoOn =>
      if !statement.delivered || !Executable(m) then []
      else [Execute(statement.id, ExecuteArgs(BoundPrefix(vs), m.limit))]
    case _ => []
  }

  lemma Continues(c: Client, call: Call, isNew: bool, next: Continue, id: nat, c': Client, requests: seq<Request>)
    requires c.supported && AllBound(call.variables)
    requires isNew == (TemplateOf(call) !in c.statements) && next == ContinueOf(isNew, call.reply)
    requires c' == if isNew then Answered(Begun(c, call), TemplateOf(call), call.reply) else Begun(c, call)
    requires id == Begun(c, call).statements[TemplateOf(call)].id
    requires requests == if isNew then [Prepare(id, TemplateOf(call))] else []
    ensures c' == Next(c, call) && id == IdAfter(c, call)
    ensures next != Stop ==> TemplateOf(call) in c'.statements
    ensures next == FallBack ==> !c'.supported && Finalized(c', id)
    ensures Requests(c, call) == requests +
      if next == Stop then [] else Rest(next, MessageAfter(c, call), call.variables, c'.statements[TemplateOf(call)])
  {
    if next == FallBack { assert c'.statements[TemplateOf(call)] == Known(id, call.junk, true); }
  }

  lemma OutcomeContinues(c: Client, call: Call, requests: seq<Request>, more: seq<Request>)
    requires Requests(c, call) == requests + more && c.supported && AllBound(call.variables)
    requires forall r <- requests :: r.Prepare?
    requires forall r <- more :: !r.Prepare?
    ensures OutcomeOf(c, call) == if more != [] && call.sendOk then Statement else NoStatement
  {
    var r := requests + more;
    if more != [] {
      assert r[|r| - 1] == more[|more| - 1] && more[|more| - 1] in more;
    } else if requests != [] {
      assert r[|r| - 1] == requests[|requests| - 1] && requests[|requests| - 1] in requests;
    }
  }

  // ---- statements that never reach the server ----

  /** The client holds the statement and will not prepare it again, but the server has none. */
  predicate Stuck(c: Client, t: Template) {
    t in c.statements && c.statements[t].id !in c.server
  }

  /** The call that leaves `t` stuck: it met the template first, and either a placeholder had no value
      or the Prepare request was lost or not understood. */
  ghost predicate Strands(c: Client, call: Call, t: Template) {
    && c.supported && t == TemplateOf(call) && t !in c.statements
    && (!AllBound(call.variables) || call.reply.Lost? || call.reply.Unknown?)
  }

  /** A call leaves the statements of other templates alone. */
  lemma OthersKept(c: Client, call: Call, t: Template)
    requires t != TemplateOf(call)
    ensures t in Next(c, call).statements <==> t in c.statements
    ensures t in c.statements ==> Next(c, call).statements[t] == c.statements[t]
  {
  }

  /** The server learns at most the new id. */
  lemma ServerKept(c: Client, call: Call, id: nat)
    requires id != c.nextId
    ensures id in Next(c, call).server <==> id in c.server
  {
  }

  lemma OwnStuck(c: Client, call: Call)
    requires Valid(c)
    ensures var c', t := Next(c, call), TemplateOf(call);
            && (Stuck(c', t) <==> Stuck(c, t) || Strands(c, call, t))
            && (Stuck(c', t) ==>
                c'.statements[t].delivered == if t in c.statements then c.statements[t].delivered else call.junk)
  {
  }

  /** Stuck for good, with the flag it started with. */
  lemma StuckStep(c: Client, call: Call, t: Template, flag: bool)
    requires Valid(c)
    ensures var c' := Next(c, call);
            Stuck(c', t) && c'.statements[t].delivered == flag
            <==> (Stuck(c, t) && c.statements[t].delivered == flag) || (Strands(c, call, t) && call.junk == flag)
  {
    if t == TemplateOf(call) {
      OwnStuck(c, call);
    } else {
      OthersKept(c, call, t);
      if t in c.statements { ServerKept(c, call, c.statements[t].id); }
    }
  }

  /** What an executable call sends, by what became of its template. */
  lemma SendsIff(c: Client, call: Call)
    requires Valid(c) && c.supported && AllBound(call.variables) && Executable(call.message)
    ensures var t := TemplateOf(call);
            && (Requests(c, call) == [] <==> Stuck(c, t) && !c.statements[t].delivered)
            && (ExecutesRun(Requests(c, call), Next(c, call).server, t)
                <==> && !(Stuck(c, t) && c.statements[t].delivered)
                     && !(t !in c.statements && call.reply.Lost? && call.junk))
  {
    var t := TemplateOf(call);
    var r := Requests(c, call);
    if t in c.statements {
      assert c.statements[t].delivered ==> r[0] in r && r[0].Execute?;
    } else if call.reply.Lost? && call.junk {
      assert r[1] in r && r[1] == Execute(c.nextId, r[1].args);
    }
  }

  /** Every execution names a statement that the server has prepared from `t`. */
  ghost predicate ExecutesRun(requests: seq<Request>, server: map<nat, Template>, t: Template) {
    forall r <- requests :: r.Execute? ==> r.id in server && server[r.id] == t
  }

  // ---- two calls in a row ----

  /** An incomplete call on a new template, and then a complete one. */
  lemma IncompleteThenComplete(c: Client, first: Call, second: Call)
    requires Valid(c) && c.supported && TemplateOf(first) !in c.statements && !AllBound(first.variables)
    requires TemplateOf(second) == TemplateOf(first) && AllBound(second.variables) && Executable(second.message)
    ensures var c' := Next(c, first);
            && OutcomeOf(c, first) == BindFail && Requests(c, first) == []
            && Requests(c', second) == (if first.junk then Execution(second, c.nextId) else [])
            && OutcomeOf(c', second) == (if first.junk && second.sendOk then Statement else NoStatement)
            && Stuck(Next(c', second), TemplateOf(first)) && c.nextId !in Next(c', second).server
  {
    var c' := Next(c, first);
    assert c'.statements[TemplateOf(first)] == Known(c.nextId, first.junk, false) && c'.server == c.server;
    assert Next(c', second).server == c.server;
  }

  /** A complete call that falls back, and then any other of the same operation. */
  lemma FallBackThenAgain(c: Client, first: Call, second: Call)
    requires c.supported && TemplateOf(first) !in c.statements && AllBound(first.variables) && first.reply.Unknown?
    requires Initialized(first.message)
    requires second.message == MessageAfter(c, first) && second.id == IdAfter(c, first)
    ensures var c' := Next(c, first);
            && Requests(c, first) == [Prepare(c.nextId, TemplateOf(first)), Plain(MessageAfter(c, first))]
            && Requests(c', second) == [Plain(MessageAfter(c, first))]
  {
    var c' := Next(c, first);
    assert c'.statements[TemplateOf(first)] == Known(c.nextId, first.junk, true) && Finalized(c', second.id);
  }

  // ---- whole sessions ----

  ghost predicate NextAt(clients: seq<Client>, calls: seq<Call>, i: nat)
    requires i < |calls| && |clients| == |calls| + 1
  {
    clients[i + 1] == Next(clients[i], calls[i])
  }

  /** Any calls on any operations of a session, one after the other. */
  ghost predicate Session(clients: seq<Client>, calls: seq<Call>) {
    && |clients| == |calls| + 1
    && clients[0] == Fresh()
    && forall i :: 0 <= i < |calls| ==> NextAt(clients, calls, i)
  }

  lemma {:induction false} SessionValid(clients: seq<Client>, calls: seq<Call>, i: nat)
    requires Session(clients, calls) && i < |clients|
    ensures Valid(clients[i])
  {
    if i > 0 {
      SessionValid(clients, calls, i - 1);
      ValidNext(clients[i - 1], calls[i - 1]);
      assert NextAt(clients, calls, i - 1);
    }
  }

  lemma {:induction false} SupportNeverReturns(clients: seq<Client>, calls: seq<Call>, i: nat, j: nat)
    requires Session(clients, calls) && i <= j < |clients| && clients[j].supported
    ensures clients[i].supported
    decreases j - i
  {
    if i < j {
      assert NextAt(clients, calls, j - 1);
      SupportNeverReturns(clients, calls, i, j - 1);
    }
  }

  /** A statement is stuck exactly if some earlier call stranded it, whatever was called since. */
  lemma {:induction false} StuckIff(clients: seq<Client>, calls: seq<Call>, i: nat, t: Template, flag: bool)
    requires Session(clients, calls) && i < |clients|
    ensures Stuck(clients[i], t) && clients[i].statements[t].delivered == flag
       <==> exists k :: 0 <= k < i && Strands(clients[k], calls[k], t) && calls[k].junk == flag
  {
    if i > 0 {
      StuckIff(clients, calls, i - 1, t, flag);
      SessionValid(clients, calls, i - 1);
      StuckStep(clients[i - 1], calls[i - 1], t, flag);
      assert NextAt(clients, calls, i - 1);
    }
  }

  /** The calls that silently send nothing: exactly those on a template that an earlier call stranded
      with the flag false. */
  lemma BlockedIff(clients: seq<Client>, calls: seq<Call>, i: nat)
    requires Session(clients, calls) && i < |calls| && clients[i].supported
    requires AllBound(calls[i].variables) && Executable(calls[i].message)
    ensures Requests(clients[i], calls[i]) == [] <==>
              exists k :: 0 <= k < i && Strands(clients[k], calls[k], TemplateOf(calls[i])) && !calls[k].junk
  {
    SessionValid(clients, calls, i);
    SendsIff(clients[i], calls[i]);
    StuckIff(clients, calls, i, TemplateOf(calls[i]), false);
  }

  /** The calls that execute a statement the server does not have: exactly those on a template that
      an earlier call stranded with the flag true, or whose own Prepare request is lost then. */
  lemma MisdirectedIff(clients: seq<Client>, calls: seq<Call>, i: nat)
    requires Session(clients, calls) && i < |calls| && clients[i].supported
    requires AllBound(calls[i].variables) && Executable(calls[i].message)
    ensures !ExecutesRun(Requests(clients[i], calls[i]), clients[i + 1].server, TemplateOf(calls[i])) <==>
              || (Strands(clients[i], calls[i], TemplateOf(calls[i])) && calls[i].junk && calls[i].reply.Lost?)
              || exists k :: 0 <= k < i && Strands(clients[k], calls[k], TemplateOf(calls[i])) && calls[k].junk
  {
    SessionValid(clients, calls, i);
    assert NextAt(clients, calls, i);
    SendsIff(clients[i], calls[i]);
    StuckIff(clients, calls, i, TemplateOf(calls[i]), true);
  }

  // ---- what the requests mean ----

  /** Falling back sends what a session that never had prepared statements would send for the same
      operation, not executed before. */
  lemma FallBackIsDirect(c: Client, call: Call)
    requires Valid(c) && c.supported && AllBound(call.variables)
    requires TemplateOf(call) !in c.statements && call.reply.Unknown?
    ensures var unused := call.(message := call.message.(args := []), id := 0);
            Requests(c, call) == [Prepare(c.nextId, TemplateOf(call))] + Requests(c.(supported := false), unused)
  {
    assert [] + BoundPrefix(call.variables) == BoundPrefix(call.variables);
  }

  /** The operation was not executed before. */
  predicate Unused(c: Client, call: Call) { call.message.args == [] && !Finalized(c, call.id) }

  /** A plain request of a session without prepared statements carries exactly the bound values if and
      only if the operation had no arguments, or was finalised before with these very values. */
  lemma PlainCarriesBindingsIff(c: Client, call: Call, r: Request)
    requires !c.supported && r in Requests(c, call) && r.Plain?
    ensures r.message.args == BoundPrefix(call.variables)
       <==> call.message.args == if Finalized(c, call.id) then BoundPrefix(call.variables) else []
  {
    var args, bound := call.message.args, BoundPrefix(call.variables);
    assert |args + bound| == |args| + |bound|;
    assert [] + bound == bound;
  }

  lemma PlainCarriesBindings(c: Client, call: Call, r: Request)
    requires Valid(c) && r in Requests(c, call) && r.Plain? && (c.supported || Unused(c, call))
    ensures AllBound(call.variables) && r.message == call.message.(args := BoundPrefix(call.variables))
  {
    assert [] + BoundPrefix(call.variables) == BoundPrefix(call.variables);
  }

  lemma ExecutionArgs(c: Client, call: Call, r: Request)
    requires r in Requests(c, call) && r.Execute?
    ensures c.supported && AllBound(call.variables)
    ensures r.args == ExecuteArgs(BoundPrefix(call.variables), call.message.limit)
    ensures r.id == IdAfter(c, call)
  {
  }

  lemma ServerHasOwnTemplate(c: Client, call: Call)
    requires Valid(c) && c.supported && AllBound(call.variables) && IdAfter(c, call) in Next(c, call).server
    ensures Next(c, call).server[IdAfter(c, call)] == TemplateOf(call)
  {
  }

  lemma ExecutionCarriesBindings(c: Client, call: Call, r: Request)
    requires Valid(c) && r in Requests(c, call) && r.Execute? && r.id in Next(c, call).server
    ensures AllBound(call.variables) && Next(c, call).server[r.id] == TemplateOf(call)
    ensures r.args == ExecuteArgs(BoundPrefix(call.variables), call.message.limit)
  {
    ExecutionArgs(c, call, r);
    ServerHasOwnTemplate(c, call);
  }

  /** An execution means the plain request with the same values exactly when the limit survives the
      cast and no placeholder reads its slots. */
  lemma ExecutionMeansPlainIff(c: Client, call: Call, r: Request)
    requires Valid(c) && r in Requests(c, call) && r.Execute? && r.id in Next(c, call).server
    ensures ExecuteMeaning(Next(c, call).server[r.id], r.args)
              == PlainMeaning(call.message.(args := BoundPrefix(call.variables)))
       <==> && Fits(call.message.limit.rowCount) && Fits(call.message.limit.offset)
            && ClearOfLimit(call.message, |call.variables|)
  {
    ExecutionCarriesBindings(c, call, r);
    BoundPrefixElements(call.variables);
    PreparedMeansPlainIff(call.message, BoundPrefix(call.variables));
  }

  /** What the server makes of a request. */
  function MeaningOf(r: Request, server: map<nat, Template>): Meaning
    requires !r.Prepare? && (r.Execute? ==> r.id in server)
  {
    match r
    case Plain(m) => PlainMeaning(m)
    case Execute(id, args) => ExecuteMeaning(server[id], args)
  }

  lemma PlainMeansBindings(m: Message, history: seq<Event>)
    requires AllBound(After(history).variables) && m.body == Body(After(history)) && Sound(history, 0)
    requires m.args == BoundPrefix(After(history).variables)
    ensures PlainMeaning(m).body == FillAll(Written(history), ByName(Environment(history)))
  {
    FinalisedArgsMeanBindings(history, []);
    assert m.args + [] == m.args;
  }

  lemma ExecuteMeansBindings(call: Call, server: map<nat, Template>, r: Request, history: seq<Event>)
    requires call.message.body == Body(After(history)) && call.variables == After(history).variables
    requires AllBound(call.variables) && Fits(call.message.limit.rowCount) && Fits(call.message.limit.offset)
    requires Sound(history, Count(call.message.limit.rowCount) + Count(call.message.limit.offset))
    requires r.Execute? && r.id in server && server[r.id] == TemplateOf(call)
    requires r.args == ExecuteArgs(BoundPrefix(call.variables), call.message.limit)
    ensures MeaningOf(r, server) == PlainMeaning(call.message.(args := BoundPrefix(call.variables)))
    ensures MeaningOf(r, server).body == FillAll(Written(history), ByName(Environment(history)))
  {
    PreparedMeansBindings(call.message, history);
  }

  /** From the user's texts and bindings to the server: whichever path the call takes, the request
      means what the user wrote with the values bound by name. */
  lemma RequestMeansBindings(c: Client, call: Call, history: seq<Event>, r: Request)
    requires Valid(c) && (c.supported || Unused(c, call))
    requires call.message.body == Body(After(history)) && call.variables == After(history).variables
    requires Sound(history, if r.Plain? then 0
                            else Count(call.message.limit.rowCount) + Count(call.message.limit.offset))
    requires r.Execute? ==> Fits(call.message.limit.rowCount) && Fits(call.message.limit.offset)
    requires r in Requests(c, call) && !r.Prepare? && (r.Execute? ==> r.id in Next(c, call).server)
    ensures MeaningOf(r, Next(c, call).server) == PlainMeaning(call.message.(args := BoundPrefix(call.variables)))
    ensures MeaningOf(r, Next(c, call).server).body == FillAll(Written(history), ByName(Environment(history)))
  {
    if r.Plain? {
      PlainCarriesBindings(c, call, r);
      PlainMeansBindings(r.message, history);
    } else {
      ExecutionCarriesBindings(c, call, r);
      ExecuteMeansBindings(call, Next(c, call).server, r, history);
    }
  }
}
