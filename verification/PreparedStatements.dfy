/** find, modify and remove of xmysqlnd_collection.cc over the session's list of prepared statements
    (Prepare_stmt_data). The list is proved against the map of `StatementModel`. */
module PreparedStatements {
  import opened Options
  import opened Sequences
  import opened Placeholders
  import opened Bindings
  import opened PreparedMeaning
  import opened StatementModel

  /** One prepared statement of the list. */
  datatype Entry = Entry(
    template: Template, id: nat, delivered: bool, finalized: bool,
    values: seq<Scalar>, limit: Limit)

  /** The limit stored beside a template supplies exactly the template's limit positions. */
  predicate LimitMatches(e: Entry) {
    && (e.template.rowCountAt.Some? <==> e.limit.rowCount.Some?)
    && (e.template.offsetAt.Some? <==> e.limit.offset.Some?)
  }

  function Remembered(e: Entry): Known { Known(e.id, e.delivered, e.finalized) }

  predicate Holds(entries: seq<Entry>, i: int, t: Template) {
    0 <= i < |entries| && entries[i].template == t
  }

  /** The list has exactly one entry for `t`, with what `known` says of it, or none if that is nothing. */
  ghost predicate Matches(entries: seq<Entry>, known: map<Template, Known>, t: Template) {
    if t in known
    then exists i :: Holds(entries, i, t) && Remembered(entries[i]) == known[t] && LimitMatches(entries[i])
                     && forall j :: Holds(entries, j, t) ==> j == i
    else forall j :: !Holds(entries, j, t)
  }

  /** `entries` lists the statements in `known`. */
  ghost predicate Represents(entries: seq<Entry>, known: map<Template, Known>) {
    forall t :: Matches(entries, known, t)
  }

  lemma EntryAt(entries: seq<Entry>, known: map<Template, Known>, it: nat)
    requires Represents(entries, known) && it < |entries|
    ensures entries[it].template in known && known[entries[it].template] == Remembered(entries[it])
    ensures LimitMatches(entries[it]) && forall j :: Holds(entries, j, entries[it].template) ==> j == it
  {
    assert Matches(entries, known, entries[it].template) && Holds(entries, it, entries[it].template);
  }

  lemma AppendEntry(entries: seq<Entry>, known: map<Template, Known>, e: Entry)
    requires Represents(entries, known) && e.template !in known && LimitMatches(e)
    ensures Represents(entries + [e], known[e.template := Remembered(e)])
  {
    var longer, known' := entries + [e], known[e.template := Remembered(e)];
    forall t: Template
      ensures Matches(longer, known', t)
    {
      assert Matches(entries, known, t);
      assert forall i :: Holds(longer, i, t) <==> Holds(entries, i, t) || (i == |entries| && t == e.template);
      assert Holds(longer, |entries|, e.template);
      assert forall i :: Holds(entries, i, t) ==> longer[i] == entries[i];
    }
  }

  lemma UpdateEntry(entries: seq<Entry>, known: map<Template, Known>, it: nat, e: Entry)
    requires Represents(entries, known) && it < |entries|
    requires e.template == entries[it].template && LimitMatches(e)
    ensures Represents(entries[it := e], known[e.template := Remembered(e)])
  {
    var updated, known' := entries[it := e], known[e.template := Remembered(e)];
    EntryAt(entries, known, it);
    forall t: Template
      ensures Matches(updated, known', t)
    {
      assert Matches(entries, known, t);
      assert forall i :: Holds(updated, i, t) <==> Holds(entries, i, t);
      assert Holds(updated, it, e.template);
    }
  }

  function Without(entries: seq<Entry>, it: nat): seq<Entry>
    requires it < |entries|
  {
    entries[..it] + entries[it + 1..]
  }

  /** The old index of what stands at `i` once the entry at `it` is gone. */
  function Shifted(i: int, it: nat): int { if i < it then i else i + 1 }

  lemma HeldWithout(entries: seq<Entry>, it: nat, i: int, t: Template)
    requires it < |entries|
    ensures Holds(Without(entries, it), i, t) <==> Holds(entries, Shifted(i, it), t)
    ensures Holds(Without(entries, it), i, t) ==> Without(entries, it)[i] == entries[Shifted(i, it)]
  {
  }

  lemma MatchesWithout(entries: seq<Entry>, known: map<Template, Known>,
                       it: nat, t: Template, known': map<Template, Known>)
    requires it < |entries| && Matches(entries, known, t) && known' == known - {entries[it].template}
    requires forall j :: Holds(entries, j, entries[it].template) ==> j == it
    ensures Matches(Without(entries, it), known', t)
  {
    var rest := Without(entries, it);
    if t in known' {
      var i :| Holds(entries, i, t) && Remembered(entries[i]) == known[t] && LimitMatches(entries[i])
               && forall j :: Holds(entries, j, t) ==> j == i;
      HeldWithout(entries, it, if i < it then i else i - 1, t);
    }
    forall j | Holds(rest, j, t)
      ensures t in known' && Holds(entries, Shifted(j, it), t)
    {
      HeldWithout(entries, it, j, t);
    }
  }

  lemma DropEntry(entries: seq<Entry>, known: map<Template, Known>, it: nat)
    requires Represents(entries, known) && it < |entries|
    ensures Represents(Without(entries, it), known - {entries[it].template})
  {
    var rest, known' := Without(entries, it), known - {entries[it].template};
    EntryAt(entries, known, it);
    forall t: Template
      ensures Matches(rest, known', t)
    {
      assert Matches(entries, known, t);
      MatchesWithout(entries, known, it, t, known');
    }
  }

  // ---- what one change of the list does to the client's statements ----

  lemma NewEntry(entries: seq<Entry>, c: Client, e: Entry)
    requires Represents(entries, c.statements) && e.template !in c.statements && LimitMatches(e)
    requires e.id == c.nextId && !e.finalized
    ensures Represents(entries + [e], Added(c, e.template, e.delivered).statements)
  {
    AppendEntry(entries, c.statements, e);
  }

  /** Limit and values are not among the things `StatementModel` looks at. */
  lemma RefreshedEntry(entries: seq<Entry>, known: map<Template, Known>, it: nat, e: Entry)
    requires Represents(entries, known) && it < |entries| && LimitMatches(e)
    requires e.template == entries[it].template && Remembered(e) == Remembered(entries[it])
    ensures Represents(entries[it := e], known)
  {
    EntryAt(entries, known, it);
    UpdateEntry(entries, known, it, e);
    assert known[e.template := Remembered(e)] == known;
  }

  lemma FinalEntry(entries: seq<Entry>, c: Client, it: nat)
    requires Represents(entries, c.statements) && it < |entries|
    ensures Represents(entries[it := entries[it].(finalized := true)], MarkedFinal(c, entries[it].template).statements)
  {
    EntryAt(entries, c.statements, it);
    UpdateEntry(entries, c.statements, it, entries[it].(finalized := true));
  }

  /** The list after the server's reply to the Prepare request of the entry at `it`. */
  function AfterReply(entries: seq<Entry>, it: nat, reply: Reply): seq<Entry>
    requires it < |entries|
  {
    match reply
    case Prepared => entries[it := entries[it].(delivered := true)]
    case Rejected => Without(entries, it)
    case _ => entries
  }

  lemma AnsweredEntry(entries: seq<Entry>, c: Client, it: nat, reply: Reply)
    requires Represents(entries, c.statements) && it < |entries|
    ensures Represents(AfterReply(entries, it, reply), Answered(c, entries[it].template, reply).statements)
  {
    EntryAt(entries, c.statements, it);
    match reply
    case Prepared => UpdateEntry(entries, c.statements, it, entries[it].(delivered := true));
    case Rejected => DropEntry(entries, c.statements, it);
    case _ =>
  }

  class CollectionOperation {
    var message: Message
    var id: nat
    const bindings: Bindings

    constructor (kind: Kind, bindings: Bindings)
      ensures message == Message(kind, [], Limit(None, None), []) && id == 0 && this.bindings == bindings
    {
      message, id, this.bindings := Message(kind, [], Limit(None, None), []), 0, bindings;
    }

    ghost function Called(reply: Reply, junk: bool, sendOk: bool): Call
      reads this, bindings
    {
      Call(message, id, bindings.variables, reply, junk, sendOk)
    }

    ghost function Form(): Template
      reads this, bindings
    {
      ToTemplate(message, |bindings.variables|)
    }
  }

  class Session {
    var supported: bool
    var nextId: nat
    var entries: seq<Entry>
    var sent: seq<Request>             // every request so far, in order
    var server: map<nat, Template>     // the statements the server has prepared
    ghost var known: map<Template, Known>

    ghost function Value(): Client
      reads this
    {
      Client(supported, nextId, known, server)
    }

    ghost predicate Valid()
      reads this
    {
      Represents(entries, known)
    }

    /** The part of the invariant that every call keeps by `ValidNext`. */
    ghost predicate ValidIds()
      reads this
    {
      StatementModel.Valid(Value())
    }

    constructor ()
      ensures Valid() && ValidIds() && Value() == Fresh() && sent == []
    {
      supported, nextId, entries, sent, server, known := true, 1, [], [], map[], map[];
    }

    method EntryOf(id: nat) returns (it: nat)
      ensures it <= |entries|
      ensures it < |entries| ==> entries[it].id == id
      ensures it == |entries| <==> forall e <- entries :: e.id != id
    {
      it := 0;
      while it < |entries| && entries[it].id != id
        invariant it <= |entries|
        invariant forall i :: 0 <= i < it ==> entries[i].id != id
      {
        it := it + 1;
      }
    }

    method EntryWith(template: Template) returns (it: nat)
      requires Valid()
      ensures it <= |entries|
      ensures it < |entries| ==> entries[it].template == template
      ensures it == |entries| <==> template !in known
    {
      it := 0;
      while it < |entries| && entries[it].template != template
        invariant it <= |entries|
        invariant forall i :: 0 <= i < it ==> entries[i].template != template
      {
        it := it + 1;
      }
      assert Matches(entries, known, template);
      assert it < |entries| ==> Holds(entries, it, template);
    }

    method IsBindFinalized(id: nat) returns (finalized: bool)
      requires Valid() && ValidIds()
      ensures finalized <==> Finalized(Value(), id)
    {
      var it := EntryOf(id);
      finalized := it < |entries| && entries[it].finalized;
      if it < |entries| {
        EntryAt(entries, known, it);
      } else {
        forall t | t in known
          ensures known[t].id != id
        {
          assert Matches(entries, known, t);
        }
      }
    }

    /** add_message, on a session that supports prepared statements: clears the message's arguments
        and looks the template up, adding it if it is new. The `delivered` flag of a new entry is
        not initialised by the source and starts as `junk`. */
    method AddMessage(op: CollectionOperation, junk: bool) returns (isNew: bool, it: nat)
      requires Valid()
      modifies this`entries, this`nextId, this`known, op`message
      ensures Valid() && it < |entries|
      ensures op.message == old(op.message).(args := [])
      ensures entries[it].template == op.Form() && entries[it].limit == op.message.limit
      ensures isNew <==> op.Form() !in old(Value()).statements
      ensures Value() == Added(old(Value()), op.Form(), junk)
    {
      op.message := op.message.(args := []);
      var template := ToTemplate(op.message, |op.bindings.variables|);
      it := EntryWith(template);
      isNew := it == |entries|;
      if isNew {
        var e := Entry(template, nextId, junk, false, [], op.message.limit);
        NewEntry(entries, Value(), e);
        known := Added(Value(), template, junk).statements;
        entries, nextId := entries + [e], nextId + 1;
      } else {
        var e := entries[it].(limit := op.message.limit);
        RefreshedEntry(entries, known, it, e);
        entries := entries[it := e];
      }
    }

    method SetFinalizedBind(it: nat)
      requires Valid() && it < |entries|
      modifies this`entries, this`known
      ensures Valid() && |entries| == |old(entries)|
      ensures entries[it] == old(entries)[it].(finalized := true)
      ensures Value() == MarkedFinal(old(Value()), entries[it].template)
    {
      FinalEntry(entries, Value(), it);
      EntryAt(entries, known, it);
      known := MarkedFinal(Value(), entries[it].template).statements;
      entries := entries[it := entries[it].(finalized := true)];
    }

    /** send_prepare_msg for the entry at `it`: true unless the server answered with an error. The
        entry is dropped when the server rejects it, and kept when it does not know the message. */
    method SendPrepare(it: nat, reply: Reply) returns (ok: bool)
      requires Valid() && it < |entries|
      modifies this`entries, this`sent, this`server, this`supported, this`known
      ensures Valid()
      ensures ok <==> reply.Lost? || reply.Prepared?
      ensures supported == (old(supported) && !reply.Unknown?)
      ensures sent == old(sent) + [Prepare(old(entries)[it].id, old(entries)[it].template)]
      ensures Value() == Answered(old(Value()), old(entries)[it].template, reply)
      ensures ok ==>
        it < |entries| && entries[it] == old(entries)[it].(delivered := reply.Prepared? || old(entries)[it].delivered)
    {
      var e := entries[it];
      sent := sent + [Prepare(e.id, e.template)];
      AnsweredEntry(entries, Value(), it, reply);
      EntryAt(entries, known, it);
      known := Answered(Value(), e.template, reply).statements;
      match reply {
        case Lost => ok := true;
        case Prepared =>
          server := server[e.id := e.template];
          entries := entries[it := e.(delivered := true)];
          ok := true;
        case Unknown =>
          supported := false;
          ok := false;
        case Rejected =>
          entries := Without(entries, it);
          ok := false;
      }
      assert entries == AfterReply(old(entries), it, reply);
      assert Value() == Answered(old(Value()), e.template, reply);
    }

    /** The path of a session without prepared statements. */
    method RunPlain(op: CollectionOperation, sendOk: bool) returns (outcome: Outcome, ghost requests: seq<Request>)
      requires Valid() && ValidIds() && !supported
      modifies this`sent, op`message
      ensures op.message == MessageAfter(Value(), old(op.Called(Lost, false, sendOk)))
      ensures requests == Requests(Value(), old(op.Called(Lost, false, sendOk)))
      ensures outcome == OutcomeOf(Value(), old(op.Called(Lost, false, sendOk)))
      ensures sent == old(sent) + requests
    {
      requests := [];
      var finalized := IsBindFinalized(op.id);
      if !finalized {
        var args, thrown := op.bindings.Finalize(op.message.args);
        op.message := op.message.(args := args);
        if thrown { return BindFail, []; }
      }
      outcome := NoStatement;
      if Initialized(op.message) {
        requests := [Plain(op.message)];
        sent := sent + [Plain(op.message)];
        outcome := if sendOk then Statement else NoStatement;
      }
    }

    /** The last part of the prepared path. */
    method SendExecute(op: CollectionOperation, it: nat, sendOk: bool)
      returns (outcome: Outcome, ghost requests: seq<Request>)
      requires Valid() && it < |entries| && op.id == entries[it].id && AllBound(op.bindings.variables)
      requires entries[it].limit == op.message.limit
      modifies this`sent, this`entries
      ensures Valid() && Value() == old(Value())
      ensures sent == old(sent) + requests
      ensures requests == if old(entries)[it].delivered then Execution(op.Called(Lost, false, sendOk), op.id) else []
      ensures outcome == if requests != [] && sendOk then Statement else NoStatement
    {
      outcome, requests := NoStatement, [];
      if !op.message.kind.Find? && !Initialized(op.message) { return; }
      if entries[it].delivered {
        var values, _ := op.bindings.Finalize([]);
        assert values == BoundPrefix(op.bindings.variables);
        var e := entries[it].(values := values);
        EntryAt(entries, known, it);
        RefreshedEntry(entries, known, it, e);
        entries := entries[it := e];
        assert Value() == old(Value());
        requests := [Execute(op.id, ExecuteArgs(values, op.message.limit))];
        sent := sent + [Execute(op.id, ExecuteArgs(entries[it].values, entries[it].limit))];
        outcome := if sendOk then Statement else NoStatement;
      }
    }

    /** add_message and finalize_bind. The entry is remembered as finalised only if every placeholder
        has a value. */
    method Begin(op: CollectionOperation, junk: bool) returns (isNew: bool, it: nat, thrown: bool)
      requires Valid()
      modifies this`entries, this`nextId, this`known, op
      ensures Valid() && it < |entries| && op.Form() == old(op.Form())
      ensures op.message == old(op.message).(args := BoundPrefix(op.bindings.variables))
      ensures thrown <==> !AllBound(op.bindings.variables)
      ensures op.id == if thrown then old(op.id) else entries[it].id
      ensures entries[it].template == op.Form() && entries[it].limit == op.message.limit
      ensures isNew <==> op.Form() !in old(Value()).statements
      ensures op.Form() in Value().statements && Value().statements[op.Form()] == Remembered(entries[it])
      ensures var added := Added(old(Value()), op.Form(), junk);
              Value() == if thrown then added else MarkedFinal(added, op.Form())
    {
      isNew, it := AddMessage(op, junk);
      var args;
      args, thrown := op.bindings.Finalize(op.message.args);
      assert [] + BoundPrefix(op.bindings.variables) == BoundPrefix(op.bindings.variables);
      op.message := op.message.(args := args);
      if !thrown {
        op.id := entries[it].id;
        SetFinalizedBind(it);
      }
      EntryAt(entries, known, it);
    }

    /** Prepares a new statement, and says how the call goes on. */
    method PrepareIfNew(op: CollectionOperation, isNew: bool, it: nat, reply: Reply)
      returns (next: Continue, ghost requests: seq<Request>)
      requires Valid() && supported && it < |entries| && entries[it].template == op.Form()
      modifies this`entries, this`sent, this`server, this`supported, this`known
      ensures Valid() && sent == old(sent) + requests
      ensures requests == if isNew then [Prepare(old(entries)[it].id, op.Form())] else []
      ensures Value() == if isNew then Answered(old(Value()), op.Form(), reply) else old(Value())
      ensures next == ContinueOf(isNew, reply)
      ensures next == GoOn ==>
        && it < |entries|
        && entries[it] == old(entries)[it].(delivered := (isNew && reply.Prepared?) || old(entries)[it].delivered)
    {
      requests, next := [], GoOn;
      if isNew {
        var ok := SendPrepare(it, reply);
        requests := [Prepare(old(entries)[it].id, op.Form())];
        if !ok { next := if supported then Stop else FallBack; }
      }
    }

    /** The prepared path up to the point where the call ends, starts again or executes its statement.
        From here on the client's statements do not change any more. */
    method Start(op: CollectionOperation, reply: Reply, junk: bool, ghost sendOk: bool)
      returns (next: Continue, it: nat, ghost requests: seq<Request>)
      requires Valid() && supported
      modifies this, op
      ensures Valid() && sent == old(sent) + requests
      ensures Value() == Next(old(Value()), old(op.Called(reply, junk, sendOk)))
      ensures op.message == MessageAfter(old(Value()), old(op.Called(reply, junk, sendOk)))
      ensures op.id == IdAfter(old(Value()), old(op.Called(reply, junk, sendOk)))
      ensures next == Throw <==> !AllBound(op.bindings.variables)
      ensures next == FallBack ==> !supported && Finalized(Value(), op.id)
      ensures next == GoOn ==> it < |entries| && op.id == entries[it].id && entries[it].limit == op.message.limit
      ensures Requests(old(Value()), old(op.Called(reply, junk, sendOk))) == requests +
        if next == Throw || next == Stop then []
        else Rest(next, op.message, op.bindings.variables,
                  if next == GoOn then Remembered(entries[it]) else Known(0, false, false))
      ensures forall r <- requests :: r.Prepare?
    {
      ghost var c, call := Value(), op.Called(reply, junk, sendOk);
      var isNew, thrown;
      isNew, it, thrown := Begin(op, junk);
      if thrown { return Throw, it, []; }
      next, requests := PrepareIfNew(op, isNew, it, reply);
      Continues(c, call, isNew, next, op.id, Value(), requests);
      if next == GoOn { EntryAt(entries, known, it); }
    }

    /** find, modify and remove. The method calls itself only after prepared statements turned out
        to be unsupported, so at most once. */
    method Attempt(op: CollectionOperation, reply: Reply, junk: bool, sendOk: bool)
      returns (outcome: Outcome, ghost requests: seq<Request>)
      requires Valid() && ValidIds()
      modifies this, op
      ensures Valid()
      ensures Value() == Next(old(Value()), old(op.Called(reply, junk, sendOk)))
      ensures op.message == MessageAfter(old(Value()), old(op.Called(reply, junk, sendOk)))
      ensures op.id == IdAfter(old(Value()), old(op.Called(reply, junk, sendOk)))
      ensures requests == Requests(old(Value()), old(op.Called(reply, junk, sendOk)))
      ensures outcome == OutcomeOf(old(Value()), old(op.Called(reply, junk, sendOk)))
      ensures sent == old(sent) + requests
      decreases supported
    {
      if !supported {
        outcome, requests := RunPlain(op, sendOk);
        return;
      }
      ghost var c, call := Value(), op.Called(reply, junk, sendOk);
      ValidNext(c, call);
      var next, it;
      ghost var more;
      next, it, requests := Start(op, reply, junk, sendOk);
      match next {
        case Throw => return BindFail, [];
        case Stop => outcome, more := NoStatement, [];
        case FallBack => outcome, more := Attempt(op, reply, junk, sendOk);
        case GoOn => outcome, more := SendExecute(op, it, sendOk);
      }
      OutcomeContinues(c, call, requests, more);
      Appended(old(sent), requests, more);
      requests := requests + more;
    }

    /** One call by the user. */
    method Run(op: CollectionOperation, reply: Reply, junk: bool, sendOk: bool)
      returns (outcome: Outcome, ghost requests: seq<Request>)
      requires Valid() && ValidIds()
      modifies this, op
      ensures Valid() && ValidIds()
      ensures Value() == Next(old(Value()), old(op.Called(reply, junk, sendOk)))
      ensures op.message == MessageAfter(old(Value()), old(op.Called(reply, junk, sendOk)))
      ensures op.id == IdAfter(old(Value()), old(op.Called(reply, junk, sendOk)))
      ensures requests == Requests(old(Value()), old(op.Called(reply, junk, sendOk)))
      ensures outcome == OutcomeOf(old(Value()), old(op.Called(reply, junk, sendOk)))
      ensures sent == old(sent) + requests
    {
      ValidNext(Value(), op.Called(reply, junk, sendOk));
      outcome, requests := Attempt(op, reply, junk, sendOk);
    }
  }

  // ---- executions that do not do what the user asked for ----

  /** Executing with a placeholder left unbound throws, but leaves the statement stuck. Once the missing
      value is bound, executing again sends nothing, or, if the uninitialised flag happened to be true,
      the execution of a statement that the server does not have. */
  method MissingBindStrands(session: Session, op: CollectionOperation, name: string, value: Scalar,
                            reply: Reply, junk: bool)
    returns (first: Outcome, second: Outcome)
    requires session.Valid() && session.ValidIds() && session.supported && op.bindings.Valid()
    requires op.Form() !in session.known && Executable(op.message)
    requires !AllBound(op.bindings.variables)
    requires AllBound(BindVariable(op.bindings.variables, name, Some(value)))
    modifies session, op, op.bindings
    ensures first == BindFail && second == if junk then Statement else NoStatement
    ensures session.sent == old(session.sent) +
      if !junk then []
      else [Execute(old(session.nextId), ExecuteArgs(BoundPrefix(op.bindings.variables), op.message.limit))]
    ensures old(session.nextId) !in session.server && Stuck(session.Value(), op.Form())
  {
    ghost var c, call, requests := session.Value(), op.Called(reply, junk, true), [];
    first, requests := session.Run(op, reply, junk, true);
    var found := op.bindings.Bind(name, Some(value));
    IncompleteThenComplete(c, call, op.Called(reply, junk, true));
    second, requests := session.Run(op, reply, junk, true);
  }

  /** With the flag true, a new statement is executed although its Prepare request was never sent. */
  method LostPrepareIsExecuted(session: Session, op: CollectionOperation) returns (outcome: Outcome)
    requires session.Valid() && session.ValidIds() && session.supported
    requires op.Form() !in session.known && Executable(op.message) && AllBound(op.bindings.variables)
    modifies session, op
    ensures outcome == Statement && old(session.nextId) !in session.server
    ensures session.sent == old(session.sent) +
      [Prepare(old(session.nextId), op.Form()),
       Execute(old(session.nextId), ExecuteArgs(BoundPrefix(op.bindings.variables), op.message.limit))]
  {
    ghost var requests;
    outcome, requests := session.Run(op, Lost, true, true);
  }

  /** Without prepared statements, an operation that is executed again sends its values twice, unless it
      has none. */
  method PlainTwice(session: Session, op: CollectionOperation) returns (ghost first: Message, ghost second: Message)
    requires session.Valid() && session.ValidIds() && !session.supported
    requires !Finalized(session.Value(), op.id) && Initialized(op.message) && AllBound(op.bindings.variables)
    modifies session, op
    ensures session.sent == old(session.sent) + [Plain(first), Plain(second)]
    ensures first.args == old(op.message.args) + BoundPrefix(op.bindings.variables)
    ensures second.args == first.args + BoundPrefix(op.bindings.variables)
    ensures first == second <==> op.bindings.variables == []
  {
    ghost var requests;
    var outcome;
    outcome, requests := session.Run(op, Lost, false, true);
    first := op.message;
    outcome, requests := session.Run(op, Lost, false, true);
    second := op.message;
    BoundPrefixElements(op.bindings.variables);
    assert |second.args| == |first.args| + |op.bindings.variables|;
    assert op.bindings.variables == [] ==> second.args == first.args;
  }

  /** After a fall back the operation counts as finalised: values bound later are never sent. */
  method StaleAfterFallBack(session: Session, op: CollectionOperation, name: string, value: Scalar)
    returns (ghost m: Message)
    requires session.Valid() && session.ValidIds() && session.supported && op.bindings.Valid()
    requires op.Form() !in session.known && Initialized(op.message) && AllBound(op.bindings.variables)
    modifies session, op, op.bindings
    ensures session.sent == old(session.sent) + [Prepare(old(session.nextId), op.Form()), Plain(m), Plain(m)]
    ensures m == old(op.message).(args := BoundPrefix(old(op.bindings.variables)))
    ensures op.bindings.variables == BindVariable(old(op.bindings.variables), name, Some(value))
  {
    ghost var c, call, requests := session.Value(), op.Called(Unknown, false, true), [];
    var outcome;
    outcome, requests := session.Run(op, Unknown, false, true);
    m := op.message;
    var found := op.bindings.Bind(name, Some(value));
    FallBackThenAgain(c, call, op.Called(Unknown, false, true));
    outcome, requests := session.Run(op, Unknown, false, true);
  }
}
