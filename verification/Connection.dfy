// NuoDbConnection: opening, transactions and closing, over a driver connection with an auto-commit
// flag and pending work.

module ConnectionSpec {
  import opened Splitting
  import opened ConnectionString

  type Work = string

  /** What the driver was told: the end of auto-commit begins a transaction. */
  datatype Event = Began | Committed | RolledBack

  /** `autoCommit` and `pending` belong to the driver connection, when there is one. */
  datatype State = State(text: string, settings: Settings, open: bool, inTransaction: bool,
                         autoCommit: bool, pending: seq<Work>, committed: seq<Work>, log: seq<Event>)

  datatype Failure = NotOpen | AlreadyOpen | InTransaction | Unsupported | NullArgument | NoCommandText

  datatype Outcome = Done(st: State) | Failed(st: State, why: Failure)

  /** Assigning the connection string, which is possible at any time; an empty text is refused. */
  function Assign(st: State, value: string): State {
    if value == "" then st else st.(text := value, settings := Assigned(Split(value, ';'), BLANK))
  }

  function Open(st: State): Outcome {
    if st.open then Failed(st, AlreadyOpen)
    else if st.text == "" || st.settings.database == "" || st.settings.schema == "" ||
            st.settings.user == "" || st.settings.password == "" then Failed(st, NullArgument)
    else Done(st.(open := true, autoCommit := true, pending := []))
  }

  /** `readCommitted` is the only isolation level there is. */
  function Begin(st: State, readCommitted: bool): Outcome {
    if !st.open then Failed(st, NotOpen)
    else if st.inTransaction then Failed(st, InTransaction)
    else if !readCommitted then Failed(st, Unsupported)
    else Done(SetAutoCommit(st.(inTransaction := true), false))
  }

  /** The driver commits pending work when auto-commit comes back. */
  function SetAutoCommit(st: State, on: bool): State {
    if on == st.autoCommit then st
    else if on then st.(autoCommit := true, committed := st.committed + st.pending, pending := [])
    else st.(autoCommit := false, log := st.log + [Began])
  }

  function Commit(st: State): Outcome {
    if !st.open then Failed(st, NotOpen)
    else if !st.inTransaction then Done(st)
    else Done(SetAutoCommit(st.(committed := st.committed + st.pending, pending := [], log := st.log + [Committed],
                                inTransaction := false), true))
  }

  function Rollback(st: State): Outcome {
    if !st.open then Failed(st, NotOpen)
    else if !st.inTransaction then Done(st)
    else Done(SetAutoCommit(st.(pending := [], log := st.log + [RolledBack], inTransaction := false), true))
  }

  /** Deleting a driver connection gives its pending work to nobody. */
  function Close(st: State): Outcome {
    var r := Rollback(st);
    if r.Failed? then r else Done(r.st.(open := false, pending := [], autoCommit := true))
  }

  function ChangeDatabase(st: State, name: string): Outcome {
    if name == "" then Failed(st, NullArgument)
    else
      var r := Close(st);
      if r.Failed? then r else Open(r.st.(settings := r.st.settings.(schema := name)))
  }

  /** What a command runs: without parameters first as a plain and then again as a prepared statement. */
  function Executed(w: Work, parameters: nat): seq<Work> {
    if parameters == 0 then [w, w] else [w]
  }

  /** A command's text executed on the connection. */
  function Execute(st: State, w: Work, parameters: nat): Outcome {
    if !st.open then Failed(st, NotOpen)
    else if w == "" then Failed(st, NoCommandText)
    else if st.autoCommit then Done(st.(committed := st.committed + Executed(w, parameters)))
    else Done(st.(pending := st.pending + Executed(w, parameters)))
  }

  datatype Op = DoAssign(value: string) | DoOpen | DoBegin(readCommitted: bool) | DoCommit | DoRollback | DoClose
              | DoChange(name: string) | DoExecute(w: Work, parameters: nat)

  function Apply(st: State, op: Op): State {
    match op
    case DoAssign(value) => Assign(st, value)
    case DoOpen => Open(st).st
    case DoBegin(rc) => Begin(st, rc).st
    case DoCommit => Commit(st).st
    case DoRollback => Rollback(st).st
    case DoClose => Close(st).st
    case DoChange(name) => ChangeDatabase(st, name).st
    case DoExecute(w, parameters) => Execute(st, w, parameters).st
  }

  function Fresh(text: string, settings: Settings): State {
    State(text, settings, false, false, true, [], [], [])
  }

  function Run(st: State, ops: seq<Op>): State {
    if ops == [] then st else Apply(Run(st, ops[..|ops| - 1]), ops[|ops| - 1])
  }

  // ---- Every run ----------------------------------------------------------------------------------------------

  /** Each beginning is followed by exactly one end before the next beginning; `running` says whether
      the last one has no end yet. */
  predicate Bracketed(log: seq<Event>, running: bool) {
    if log == [] then !running
    else
      var front, last := log[..|log| - 1], log[|log| - 1];
      if last.Began? then running && Bracketed(front, false) else !running && Bracketed(front, true)
  }

  ghost predicate Inv(st: State) {
    && (st.inTransaction ==> st.open)
    && (st.inTransaction <==> !st.autoCommit)
    && (!st.inTransaction ==> st.pending == [])
    && Bracketed(st.log, st.inTransaction)
  }

  lemma BracketedSnoc(log: seq<Event>, running: bool, e: Event)
    requires Bracketed(log, running) && (e.Began? <==> !running)
    ensures Bracketed(log + [e], !running)
  {
    assert (log + [e])[..|log|] == log;
  }

  lemma ApplyKeepsInv(st: State, op: Op)
    requires Inv(st)
    ensures Inv(Apply(st, op))
  {
    if st.inTransaction {
      BracketedSnoc(st.log, true, Committed);
      BracketedSnoc(st.log, true, RolledBack);
    } else {
      BracketedSnoc(st.log, false, Began);
    }
  }

  /** Over every run a transaction implies an open connection, the flag is set exactly when the
      driver's auto-commit is off, work is pending only inside a transaction, and beginnings and ends
      alternate. */
  lemma {:induction false} EveryRunStaysInStep(st: State, ops: seq<Op>)
    requires Inv(st)
    ensures Inv(Run(st, ops))
  {
    if ops != [] {
      EveryRunStaysInStep(st, ops[..|ops| - 1]);
      ApplyKeepsInv(Run(st, ops[..|ops| - 1]), ops[|ops| - 1]);
    }
  }

  /** A new connection is in step with a server on which no transaction is running. */
  lemma NewConnectionIsInStep(text: string, settings: Settings, committed: seq<Work>, log: seq<Event>)
    ensures Inv(Fresh(text, settings).(committed := committed, log := log)) <==> Bracketed(log, false)
  {}

  /** How the durable work of a run grows: a statement outside a transaction adds itself, a commit adds
      exactly what was pending, and nothing else, closing and changing the database included, adds any. */
  lemma DurableWorkGrows(start: State, ops: seq<Op>, op: Op)
    requires Inv(start)
    ensures var st := Run(start, ops);
            Apply(st, op).committed == st.committed +
              (if op.DoExecute? && op.w != "" && st.open && !st.inTransaction then Executed(op.w, op.parameters)
               else if op.DoCommit? && st.inTransaction then st.pending
               else [])
  {
    EveryRunStaysInStep(start, ops);
    OneStepGrows(Run(start, ops), op);
  }

  lemma OneStepGrows(st: State, op: Op)
    requires Inv(st)
    ensures Apply(st, op).committed == st.committed +
              (if op.DoExecute? && op.w != "" && st.open && !st.inTransaction then Executed(op.w, op.parameters)
               else if op.DoCommit? && st.inTransaction then st.pending
               else [])
  {
    assert st.committed + [] == st.committed;
    if op.DoCommit? && st.inTransaction { assert st.committed + st.pending + [] == st.committed + st.pending; }
  }

  // ---- What each operation does in any state of a run --------------------------------------------------------

  lemma RunSnoc(start: State, ops: seq<Op>, op: Op)
    ensures Run(start, ops + [op]) == Apply(Run(start, ops), op)
  {
    assert (ops + [op])[..|ops|] == ops;
  }

  /** The state is open, outside a transaction, with nothing pending. */
  predicate Idle(st: State) { st.open && !st.inTransaction && st.autoCommit && st.pending == [] }

  /** Opening needs a closed connection, a text and all four settings. */
  lemma OpensExactly(start: State, ops: seq<Op>)
    requires Inv(start)
    ensures var st := Run(start, ops);
            var s := st.settings;
            && (Open(st).Done? <==>
                  !st.open && st.text != "" && s.database != "" && s.schema != "" && s.user != "" && s.password != "")
            && (Open(st).Done? ==>
                  Idle(Open(st).st) && Open(st).st.settings == s && Open(st).st.text == st.text
                  && Open(st).st.committed == st.committed && Open(st).st.log == st.log)
            && (Open(st).Failed? ==> Open(st).st == st && (Open(st).why.AlreadyOpen? <==> st.open)
                                     && (Open(st).why.NullArgument? <==> !st.open))
  {
    EveryRunStaysInStep(start, ops);
  }

  /** Assigning a printed connection string and opening: the connection has exactly these settings. */
  lemma AssignThenOpen(start: State, s: Settings, order: seq<Key>)
    requires Inv(start) && !start.open && (forall k :: Clean(s.Get(k))) && (forall k: Key :: k in order)
    ensures var st := Run(start, [DoAssign(Show(s, order)), DoOpen]);
            Idle(st) && st.settings == s && st.text == Show(s, order) && st.committed == start.committed
  {
    SettingsRoundTrip(s, order);
    assert Clean(s.Get(Database)) && Clean(s.Get(Schema)) && Clean(s.Get(User)) && Clean(s.Get(Password));
    RunTwo(start, DoAssign(Show(s, order)), DoOpen);
    assert start.committed + [] == start.committed;
  }

  lemma RunTwo(start: State, a: Op, b: Op)
    ensures Run(start, [a, b]) == Apply(Apply(start, a), b)
  {
    RunSnoc(start, [], a);
    RunSnoc(start, [a], b);
    assert [] + [a] == [a] && [a] + [b] == [a, b];
  }

  /** A transaction begins exactly on an open connection without one, at the one isolation level. */
  lemma BeginsExactly(start: State, ops: seq<Op>, readCommitted: bool)
    requires Inv(start)
    ensures var st := Run(start, ops);
            var r := Begin(st, readCommitted);
            && (r.Done? <==> st.open && !st.inTransaction && readCommitted)
            && (r.Done? ==>
                  r.st.open && r.st.inTransaction && !r.st.autoCommit && r.st.pending == []
                  && r.st.committed == st.committed && r.st.log == st.log + [Began] && r.st.settings == st.settings)
            && (r.Failed? ==> r.st == st && (r.why.NotOpen? <==> !st.open)
                              && (r.why.InTransaction? <==> st.inTransaction))
            && (r.Failed? && !r.why.NotOpen? && !r.why.InTransaction? ==> r.why.Unsupported?)
  {
    EveryRunStaysInStep(start, ops);
  }

  /** A commit ends the transaction and makes its pending work durable once: a second commit changes
      nothing, and a new transaction can begin. */
  lemma CommitEndsTransaction(start: State, ops: seq<Op>)
    requires Inv(start) && Run(start, ops).inTransaction
    ensures var st := Run(start, ops);
            var end := Run(start, ops + [DoCommit]);
            && Commit(st).Done? && Idle(end) && end.committed == st.committed + st.pending
            && end.log == st.log + [Committed] && end.settings == st.settings
            && Run(start, ops + [DoCommit] + [DoCommit]) == end && Begin(end, true).Done?
  {
    EveryRunStaysInStep(start, ops);
    RunSnoc(start, ops, DoCommit);
    RunSnoc(start, ops + [DoCommit], DoCommit);
    var st := Run(start, ops);
    assert st.committed + st.pending + [] == st.committed + st.pending;
  }

  /** A rollback ends it too, and drops the pending work. */
  lemma RollbackEndsTransaction(start: State, ops: seq<Op>)
    requires Inv(start) && Run(start, ops).inTransaction
    ensures var st := Run(start, ops);
            var end := Run(start, ops + [DoRollback]);
            && Rollback(st).Done? && Idle(end) && end.committed == st.committed
            && end.log == st.log + [RolledBack] && end.settings == st.settings
            && Run(start, ops + [DoRollback] + [DoRollback]) == end && Begin(end, true).Done?
  {
    EveryRunStaysInStep(start, ops);
    RunSnoc(start, ops, DoRollback);
    RunSnoc(start, ops + [DoRollback], DoRollback);
    var st := Run(start, ops);
    assert st.committed + [] == st.committed;
  }

  /** Without a transaction there is nothing to end; without a connection ending and closing fail. */
  lemma NothingToEnd(start: State, ops: seq<Op>)
    requires !Run(start, ops).inTransaction
    ensures var st := Run(start, ops);
            && Commit(st).st == st && Rollback(st).st == st
            && (st.open ==> Commit(st).Done? && Rollback(st).Done?)
            && (!st.open ==> Commit(st) == Failed(st, NotOpen) && Rollback(st) == Failed(st, NotOpen)
                             && Close(st) == Failed(st, NotOpen))
  {}

  /** A command needs an open connection and a text; what it runs is durable or pending. */
  lemma ExecutesExactly(start: State, ops: seq<Op>, w: Work, parameters: nat)
    requires Inv(start)
    ensures var st := Run(start, ops);
            var r := Execute(st, w, parameters);
            && (r.Done? <==> st.open && w != "")
            && (r.Failed? ==> r.st == st && (r.why.NotOpen? <==> !st.open) && (r.why.NoCommandText? <==> st.open))
            && (r.Done? ==>
                  r.st.committed + r.st.pending == st.committed + st.pending + (if parameters > 0 then [w] else [w, w])
                  && (if st.inTransaction then r.st.committed == st.committed else r.st.pending == [])
                  && Inv(r.st) && r.st.inTransaction == st.inTransaction && r.st.settings == st.settings)
  {
    EveryRunStaysInStep(start, ops);
    var st := Run(start, ops);
    assert st.committed + [] == st.committed;
    assert (st.committed + Executed(w, parameters)) + [] == st.committed + Executed(w, parameters);
  }

  /** Changing the database needs a name and an open connection; it ends a transaction by a rollback,
      sets the schema to the name and opens again if text and the other settings are there. */
  lemma ChangesDatabaseExactly(start: State, ops: seq<Op>, name: string)
    requires Inv(start)
    ensures var st := Run(start, ops);
            var r := ChangeDatabase(st, name);
            && (name == "" ==> r == Failed(st, NullArgument))
            && (name != "" && !st.open ==> r == Failed(st, NotOpen))
            && (name != "" && st.open ==>
                  && r.st.settings == st.settings.(schema := name) && r.st.text == st.text
                  && r.st.committed == st.committed && !r.st.inTransaction && r.st.pending == []
                  && r.st.log == st.log + (if st.inTransaction then [RolledBack] else [])
                  && (r.st.open <==> r.Done?)
                  && (r.Done? <==> st.text != "" && st.settings.database != "" && st.settings.user != "" && st.settings.password != "")
                  && (r.Failed? ==> r.why.NullArgument?))
  {
    EveryRunStaysInStep(start, ops);
    var st := Run(start, ops);
    assert st.committed + [] == st.committed && st.log + [] == st.log;
  }

  // ---- A whole transaction ------------------------------------------------------------------------------------

  /** A command's text and the number of its parameters. */
  type Command = (Work, nat)

  function Commands(ws: seq<Command>): seq<Op> {
    if ws == [] then [] else Commands(ws[..|ws| - 1]) + [DoExecute(ws[|ws| - 1].0, ws[|ws| - 1].1)]
  }

  /** What the commands run, in order; a command without a text is refused. */
  function WorkOf(ws: seq<Command>): seq<Work> {
    if ws == [] then []
    else
      var (w, parameters) := ws[|ws| - 1];
      WorkOf(ws[..|ws| - 1]) + if w == "" then [] else Executed(w, parameters)
  }

  lemma {:induction false} WorkIsPending(start: State, ws: seq<Command>)
    requires Inv(start) && Idle(start)
    ensures Run(start, [DoBegin(true)] + Commands(ws)) ==
              start.(inTransaction := true, autoCommit := false, pending := WorkOf(ws), log := start.log + [Began])
  {
    if ws == [] {
      assert [DoBegin(true)] + Commands(ws) == [] + [DoBegin(true)];
      RunSnoc(start, [], DoBegin(true));
    } else {
      var front, last := ws[..|ws| - 1], ws[|ws| - 1];
      var op := DoExecute(last.0, last.1);
      WorkIsPending(start, front);
      assert [DoBegin(true)] + Commands(ws) == ([DoBegin(true)] + Commands(front)) + [op];
      RunSnoc(start, [DoBegin(true)] + Commands(front), op);
      assert WorkOf(front) + [] == WorkOf(front);
    }
  }

  /** A transaction is all or nothing: whatever commands it runs, committing makes their whole work
      durable in order, rolling back none of it, and nothing else remains of it but its record. */
  lemma TransactionIsAtomic(start: State, ws: seq<Command>)
    requires Inv(start) && Idle(start)
    ensures Run(start, [DoBegin(true)] + Commands(ws) + [DoCommit]) ==
              start.(committed := start.committed + WorkOf(ws), log := start.log + [Began] + [Committed])
    ensures Run(start, [DoBegin(true)] + Commands(ws) + [DoRollback]) ==
              start.(log := start.log + [Began] + [RolledBack])
  {
    WorkIsPending(start, ws);
    RunSnoc(start, [DoBegin(true)] + Commands(ws), DoCommit);
    RunSnoc(start, [DoBegin(true)] + Commands(ws), DoRollback);
    assert start.committed + WorkOf(ws) + [] == start.committed + WorkOf(ws);
    assert start.committed + [] == start.committed;
  }

  /** How often a statement has been run, durably or not. */
  function TimesRun(st: State, w: Work): nat { multiset(st.committed + st.pending)[w] }

  /** A command runs its statement once exactly when it has parameters. */
  lemma CommandRunsOnceExactly(st: State, w: Work, parameters: nat)
    requires st.open && w != ""
    ensures TimesRun(Execute(st, w, parameters).st, w) == TimesRun(st, w) + 1 <==> parameters > 0
  {
    var more := Executed(w, parameters);
    assert multiset(more)[w] == |more|;
    assert multiset(st.committed + more)[w] == multiset(st.committed)[w] + |more|;
  }

  /** A command without parameters on a new connection. */
  lemma PlainCommandRunsTwice(w: Work, settings: Settings)
    requires w != ""
    ensures Execute(Fresh("", settings).(open := true), w, 0).st.committed == [w, w]
  {}

  /** Closing an open connection in any state of a run loses exactly the pending work. */
  lemma CloseDropsPending(start: State, ops: seq<Op>)
    requires Inv(start) && Run(start, ops).open
    ensures var st := Run(start, ops);
            var end := Close(st);
            end.Done? && !end.st.open && !end.st.inTransaction && end.st.committed == st.committed && end.st.pending == []
            && end.st.log == st.log + (if st.inTransaction then [RolledBack] else [])
  {
    EveryRunStaysInStep(start, ops);
    var st := Run(start, ops);
    assert st.committed + [] == st.committed && st.log + [] == st.log;
  }
}

module Connection {
  import opened Options
  import opened Splitting
  import opened ConnectionString
  import opened ConnectionSpec

  /** The server's durable work and the record of what drivers were told. */
  class Server {
    var committed: seq<Work>
    ghost var log: seq<Event>
    constructor () ensures committed == [] && log == [] { committed, log := [], []; }
  }

  /** A connection of the client library; new ones are in auto-commit. */
  class Driver {
    const server: Server
    var autoCommit: bool
    var pending: seq<Work>

    constructor (server: Server)
      ensures this.server == server && autoCommit && pending == []
    {
      this.server, autoCommit, pending := server, true, [];
    }

    method SetAutoCommit(on: bool)
      modifies this, server
      ensures autoCommit == on
      ensures server.committed == if on && !old(autoCommit) then old(server.committed) + old(pending) else old(server.committed)
      ensures pending == if on && !old(autoCommit) then [] else old(pending)
      ensures server.log == if !on && old(autoCommit) then old(server.log) + [Began] else old(server.log)
    {
      if on && !autoCommit {
        server.committed := server.committed + pending;
        pending := [];
      }
      if !on && autoCommit { server.log := server.log + [Began]; }
      autoCommit := on;
    }

    method Commit()
      modifies this`pending, server
      ensures server.committed == old(server.committed) + old(pending) && pending == []
      ensures server.log == old(server.log) + [Committed]
    {
      server.committed := server.committed + pending;
      pending := [];
      server.log := server.log + [Committed];
    }

    method Rollback()
      modifies this`pending, server`log
      ensures pending == [] && server.log == old(server.log) + [RolledBack]
    {
      pending := [];
      server.log := server.log + [RolledBack];
    }

    method Execute(w: Work)
      modifies this`pending, server`committed
      ensures server.committed == if autoCommit then old(server.committed) + [w] else old(server.committed)
      ensures pending == if autoCommit then old(pending) else old(pending) + [w]
    {
      if autoCommit { server.committed := server.committed + [w]; } else { pending := pending + [w]; }
    }
  }

  class NuoDbConnection {
    const server: Server
    var connectionString: string
    var settings: Settings
    var connection: Driver?
    var inTransaction: bool

    ghost predicate Valid()
      reads this, connection
    {
      connection != null ==> connection.server == server
    }

    ghost function View(): State
      reads this, connection, server
    {
      State(connectionString, settings, connection != null, inTransaction,
            connection == null || connection.autoCommit, if connection == null then [] else connection.pending,
            server.committed, server.log)
    }

    constructor (server: Server)
      ensures Valid() && this.server == server && connection == null
      ensures View() == Fresh("", BLANK).(committed := server.committed, log := server.log)
    {
      this.server := server;
      connectionString, settings, connection, inTransaction := "", BLANK, null, false;
    }

    /** Assigning the connection string. */
    method SetConnectionString(value: string) returns (e: Option<Error>)
      requires Valid()
      modifies this`connectionString, this`settings
      ensures Valid()
      ensures e == if value == "" then Some(Missing) else FirstError(Split(value, ';'))
      ensures View() == Assign(old(View()), value)
      ensures connectionString == if value == "" then old(connectionString) else value
      ensures settings == if value == "" then old(settings) else Assigned(Split(value, ';'), BLANK)
    {
      if value == "" { return Some(Missing); }
      connectionString := value;
      e := ParseConnectionString();
    }

    /** The fields are written segment by segment; an error leaves those written so far. */
    method ParseConnectionString() returns (e: Option<Error>)
      modifies this`settings
      ensures connectionString == "" ==> e == Some(Missing) && settings == old(settings)
      ensures connectionString != "" ==>
                var items := Split(connectionString, ';');
                e == FirstError(items) && settings == Assigned(items, BLANK)
    {
      if connectionString == "" { return Some(Missing); }
      settings := BLANK;
      var items := Split(connectionString, ';');
      var i := 0;
      while i < |items|
        invariant 0 <= i <= |items|
        invariant FirstError(items[i..]) == FirstError(items)
        invariant Assigned(items[i..], settings) == Assigned(items, BLANK)
      {
        e := AssignItem(items[i]);
        if e.Some? { return; }
        assert items[i..][1..] == items[i + 1..];
        i := i + 1;
      }
      return None;
    }

    /** One segment: a key, an equals sign, a value. */
    method AssignItem(item: string) returns (e: Option<Error>)
      modifies this`settings
      ensures ReadItem(item).Bad? ==> e == Some(ReadItem(item).error) && settings == old(settings)
      ensures ReadItem(item).Good? ==>
                e == None && settings == old(settings).With(ReadItem(item).key, ReadItem(item).value)
    {
      var parts := Split(item, '=');
      if |parts| != 2 { return Some(Malformed); }
      var k, v := Trim(parts[0]), Trim(parts[1]);
      if k == "" || v == "" { return Some(Malformed); }
      if k == "Database" { settings := settings.(database := v); }
      else if k == "Schema" { settings := settings.(schema := v); }
      else if k == "User" { settings := settings.(user := v); }
      else if k == "Password" { settings := settings.(password := v); }
      else { return Some(UnknownKey(k)); }
      return None;
    }

    /** The result of an operation, told by the state before and after. */
    ghost predicate Is(r: Option<Failure>, outcome: Outcome)
      reads this, connection, server
    {
      View() == outcome.st && r == if outcome.Failed? then Some(outcome.why) else None
    }

    method OpenConnection() returns (r: Option<Failure>)
      requires Valid()
      modifies this`connection
      ensures Valid() && Is(r, Open(old(View()))) && (connection != old(connection) ==> fresh(connection))
    {
      if connection != null { return Some(AlreadyOpen); }
      if connectionString == "" || settings.database == "" || settings.schema == "" ||
         settings.user == "" || settings.password == "" { return Some(NullArgument); }
      connection := new Driver(server);
      return None;
    }

    /** What a command with this text and so many parameters does to its connection. */
    method ExecuteNonQuery(commandText: Work, parameters: nat) returns (r: Option<Failure>)
      requires Valid()
      modifies connection, server
      ensures Valid() && Is(r, Execute(old(View()), commandText, parameters))
    {
      if connection == null { return Some(NotOpen); }
      if commandText == "" { return Some(NoCommandText); }
      if parameters == 0 { connection.Execute(commandText); }
      connection.Execute(commandText);
      return None;
    }

    method BeginTransaction(readCommitted: bool) returns (r: Option<Failure>)
      requires Valid()
      modifies this`inTransaction, connection, server
      ensures Valid() && Is(r, Begin(old(View()), readCommitted))
    {
      if connection == null { return Some(NotOpen); }
      if inTransaction { return Some(InTransaction); }
      if !readCommitted { return Some(Unsupported); }
      inTransaction := true;
      connection.SetAutoCommit(false);
      return None;
    }

    method CommitTransaction() returns (r: Option<Failure>)
      requires Valid()
      modifies this`inTransaction, connection, server
      ensures Valid() && Is(r, ConnectionSpec.Commit(old(View())))
      ensures r.None? ==> !inTransaction
    {
      if connection == null { return Some(NotOpen); }
      if !inTransaction { return None; }
      connection.Commit();
      inTransaction := false;
      connection.SetAutoCommit(true);
      return None;
    }

    method RollbackTransaction() returns (r: Option<Failure>)
      requires Valid()
      modifies this`inTransaction, connection, server
      ensures Valid() && Is(r, ConnectionSpec.Rollback(old(View())))
      ensures r.None? ==> !inTransaction
    {
      if connection == null { return Some(NotOpen); }
      if !inTransaction { return None; }
      connection.Rollback();
      inTransaction := false;
      connection.SetAutoCommit(true);
      return None;
    }

    method Close() returns (r: Option<Failure>)
      requires Valid()
      modifies this`inTransaction, this`connection, connection, server
      ensures Valid() && Is(r, ConnectionSpec.Close(old(View())))
      ensures r.None? ==> connection == null
    {
      r := RollbackTransaction();
      if r.Some? { return; }
      connection := null;
    }

    method ChangeDatabase(name: string) returns (r: Option<Failure>)
      requires Valid()
      modifies this`inTransaction, this`connection, this`settings, connection, server
      ensures Valid() && Is(r, ConnectionSpec.ChangeDatabase(old(View()), name))
    {
      if name == "" { return Some(NullArgument); }
      r := Close();
      if r.Some? { return; }
      settings := settings.(schema := name);
      r := OpenConnection();
    }
  }
}
