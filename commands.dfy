/**
  The terminal's command table: eleven commands in a fixed order, each a
  name, a description and a handler. The handlers are modelled as one
  function from the arguments and the outside world to what the handler
  returns (its text and its effect on the page) or the exception it throws.
 */
module Commands {
  import opened Wrappers
  import opened Text
  import opened Assistant

  /** The handlers the table binds. */
  datatype Handler = Help | Ask | Explain | Quiz | Derive | Papers | Clear | Login | Logout | Register | Theme

  /** One entry of the table: its key, its description and its handler. */
  datatype Command = Command(name: string, description: string, handler: Handler)

  /** The `commands` object, in the order its keys are enumerated. */
  const Table: seq<Command> := [
    Command("help", "Show available commands", Help),
    Command("ask", "Ask anything about quantum optics", Ask),
    Command("explain", "Explain a quantum optics concept", Explain),
    Command("quiz", "Generate interactive quiz", Quiz),
    Command("derive", "Derive a quantum optics formula", Derive),
    Command("papers", "Find and summarize recent papers", Papers),
    Command("clear", "Clear terminal history", Clear),
    Command("login", "Authenticate user session", Login),
    Command("logout", "End current session", Logout),
    Command("register", "Create new account", Register),
    Command("theme", "Change interface color theme", Theme)
  ]

  /** The world the handlers reach: the chat-completion endpoint, HTTP GET
      for the arXiv feed, and whether `#login-modal` is missing from the
      page, in which case reading its `style` throws a TypeError with the
      given message. */
  datatype Env = Env(ai: AiOracle, fetch: FetchOracle, modalMissing: Option<string>)

  /** What a handler does to the page besides returning its text. */
  datatype Effect = NoEffect | ClearScreen | EndSession

  /** A handler's result: the string it returned with its effect, or the
      message of the exception it threw. */
  datatype Outcome = Returned(text: string, effect: Effect) | Threw(message: string)

  predicate NamesUnique(t: seq<Command>) {
    forall i, j :: 0 <= i < j < |t| ==> t[i].name != t[j].name
  }

  predicate HasName(t: seq<Command>, name: string) {
    exists k :: 0 <= k < |t| && t[k].name == name
  }

  /** The entry of `t` with key `name`, if any (the first one should there be several). */
  function Find(t: seq<Command>, name: string): (r: Option<Command>)
    ensures r.None? <==> !HasName(t, name)
    ensures r.Some? ==> r.value.name == name && r.value in t
  {
    if |t| == 0 then None
    else if t[0].name == name then Some(t[0])
    else
      var r := Find(t[1..], name);
      assert forall k :: 0 <= k < |t| - 1 ==> t[1..][k] == t[k + 1];
      assert !HasName(t[1..], name) ==> forall k :: 0 < k < |t| ==> t[k].name != name by {
        if !HasName(t[1..], name) {
          forall k | 0 < k < |t| ensures t[k].name != name {
            assert t[1..][k - 1] == t[k];
          }
        }
      }
      r
  }

  /** `commands[name]`, with property lookup taken as plain membership. */
  function Lookup(name: string): (r: Option<Command>)
    ensures r.None? <==> !HasName(Table, name)
    ensures r.Some? ==> r.value in Table && r.value.name == name
  {
    Find(Table, name)
  }

  /** An entry the listing can show: a name of one word, and neither
      name nor description breaks the line. */
  predicate CleanEntry(c: Command) {
    && 0 < |c.name|
    && (forall k :: 0 <= k < |c.name| ==> c.name[k] != '\n' && c.name[k] != ' ')
    && (forall k :: 0 <= k < |c.description| ==> c.description[k] != '\n')
  }

  // One lemma per entry keeps each proof about the literal table small.
  lemma CleanEntry0() ensures CleanEntry(Table[0]) {}
  lemma CleanEntry1() ensures CleanEntry(Table[1]) {}
  lemma CleanEntry2() ensures CleanEntry(Table[2]) {}
  lemma CleanEntry3() ensures CleanEntry(Table[3]) {}
  lemma CleanEntry4() ensures CleanEntry(Table[4]) {}
  lemma CleanEntry5() ensures CleanEntry(Table[5]) {}
  lemma CleanEntry6() ensures CleanEntry(Table[6]) {}
  lemma CleanEntry7() ensures CleanEntry(Table[7]) {}
  lemma CleanEntry8() ensures CleanEntry(Table[8]) {}
  lemma CleanEntry9() ensures CleanEntry(Table[9]) {}
  lemma CleanEntry10() ensures CleanEntry(Table[10]) {}

  lemma TableClean()
    ensures forall k :: 0 <= k < |Table| ==> CleanEntry(Table[k])
  {
    CleanEntry0(); CleanEntry1(); CleanEntry2(); CleanEntry3(); CleanEntry4(); CleanEntry5();
    CleanEntry6(); CleanEntry7(); CleanEntry8(); CleanEntry9(); CleanEntry10();
  }

  /** No two entries of the table share a key. */
  lemma TableNamesUnique()
    ensures NamesUnique(Table)
  {
    forall i, j | 0 <= i < j < |Table| ensures Table[i].name != Table[j].name {
      assert |Table[i].name| != |Table[j].name| || Table[i].name[0] != Table[j].name[0];
    }
  }

  /** `clear` and `logout` are the only keys bound to their handlers. */
  lemma TableHandlers()
    ensures forall k :: 0 <= k < |Table| ==> (Table[k].handler == Clear <==> Table[k].name == "clear")
    ensures forall k :: 0 <= k < |Table| ==> (Table[k].handler == Logout <==> Table[k].name == "logout")
  {
    forall k | 0 <= k < |Table| ensures Table[k].handler == Clear <==> Table[k].name == "clear" {
      assert |Table[k].name| != 5 || Table[k].name[0] != 'c' || k == 6;
    }
    forall k | 0 <= k < |Table| ensures Table[k].handler == Logout <==> Table[k].name == "logout" {
      assert |Table[k].name| != 6 || Table[k].name[0] != 'l' || k == 8;
    }
  }

  /** Every entry is found under its own name. */
  lemma LookupFindsEveryEntry(c: Command)
    requires c in Table
    ensures Lookup(c.name) == Some(c)
  {
    TableNamesUnique();
    var k :| 0 <= k < |Table| && Table[k] == c;
    var r := Lookup(c.name);
    var j :| 0 <= j < |Table| && Table[j] == r.value;
    assert Table[j].name == Table[k].name;
  }

  /** An entry of the table is bound to `clear` or `logout` exactly when its key says so. */
  lemma EntryHandler(c: Command)
    requires c in Table
    ensures c.handler == Clear <==> c.name == "clear"
    ensures c.handler == Logout <==> c.name == "logout"
  {
    var k :| 0 <= k < |Table| && Table[k] == c;
    TableHandlers();
  }

  /** Looking a name up reaches the `clear` handler exactly for `clear`
      and the `logout` handler exactly for `logout`. */
  lemma LookupHandler(name: string)
    ensures (Lookup(name).Some? && Lookup(name).value.handler == Clear) <==> name == "clear"
    ensures (Lookup(name).Some? && Lookup(name).value.handler == Logout) <==> name == "logout"
  {
    if name == "clear" {
      LookupFindsEveryEntry(Table[6]);
      EntryHandler(Table[6]);
    } else if name == "logout" {
      LookupFindsEveryEntry(Table[8]);
      EntryHandler(Table[8]);
    } else if Lookup(name).Some? {
      EntryHandler(Lookup(name).value);
    }
  }

  /** The longest key of a non-empty table, `Math.max(...keys.map(c => c.length))`. */
  function MaxNameLength(t: seq<Command>): (n: nat)
    requires |t| > 0
    ensures forall k :: 0 <= k < |t| ==> |t[k].name| <= n
    ensures exists k :: 0 <= k < |t| && |t[k].name| == n
  {
    if |t| == 1 then |t[0].name|
    else
      var m := MaxNameLength(t[1..]);
      assert forall k :: 0 < k < |t| ==> t[k] == t[1..][k - 1];
      if |t[0].name| >= m then |t[0].name| else m
  }

  const HelpHeader: string := "Available commands:"

  /** One line of the listing: two spaces, the name padded to `width + 2`, the description. */
  function HelpRow(c: Command, width: nat): string {
    "  " + PadEnd(c.name, width + 2) + c.description
  }

  function HelpRows(t: seq<Command>, width: nat): (rows: seq<string>)
    ensures |rows| == |t|
    ensures forall k :: 0 <= k < |t| ==> rows[k] == HelpRow(t[k], width)
  {
    seq(|t|, k requires 0 <= k < |t| => HelpRow(t[k], width))
  }

  /** The text the `help` handler returns for table `t`. */
  function HelpText(t: seq<Command>): string
    requires |t| > 0
  {
    HelpHeader + "\n" + Join(HelpRows(t, MaxNameLength(t)), "\n")
  }

  /** The first space-separated word of a listing line after its two-space indent. */
  function RowName(row: string): string {
    if |row| < 2 then "" else Split(row[2..], ' ')[0]
  }

  predicate WellFormedTable(t: seq<Command>) {
    |t| > 0 && forall k :: 0 <= k < |t| ==> CleanEntry(t[k])
  }

  /** The layout of one listing line: the indent, the name, at least two
      spaces, and the description starting at column `width + 4`. */
  lemma HelpRowLayout(c: Command, width: nat)
    requires |c.name| <= width
    ensures var row := HelpRow(c, width);
            && |row| == width + 4 + |c.description|
            && row[..2] == "  "
            && row[2..2 + |c.name|] == c.name
            && (forall k :: 2 + |c.name| <= k < width + 4 ==> row[k] == ' ')
            && row[width + 4..] == c.description
  {
    var p := PadEnd(c.name, width + 2);
    var row := HelpRow(c, width);
    assert row == "  " + p + c.description;
    assert row[2..2 + |c.name|] == p[..|c.name|];
    forall k | 2 + |c.name| <= k < width + 4 ensures row[k] == ' ' {
      assert row[k] == p[k - 2];
    }
  }

  /** A listing line holds no newline when its entry holds none. */
  lemma HelpRowNoNewline(c: Command, width: nat)
    requires CleanEntry(c)
    ensures '\n' !in HelpRow(c, width)
  {
    var p := PadEnd(c.name, width + 2);
    forall k | 0 <= k < |p| ensures p[k] != '\n' {
      if k < |c.name| {
        assert p[k] == p[..|c.name|][k];
      }
    }
    assert HelpRow(c, width) == "  " + p + c.description;
  }

  /** The name can be read back from its listing line. */
  lemma HelpRowName(c: Command, width: nat)
    requires |c.name| <= width && CleanEntry(c)
    ensures RowName(HelpRow(c, width)) == c.name
  {
    var row := HelpRow(c, width);
    HelpRowLayout(c, width);
    var rest := row[3 + |c.name|..];
    assert row[2..] == c.name + [' '] + rest;
    SplitAtFirstSeparator(c.name, rest, ' ');
  }

  lemma HelpTextJoined(t: seq<Command>)
    requires |t| > 0
    ensures HelpText(t) == Join([HelpHeader] + HelpRows(t, MaxNameLength(t)), "\n")
  {
    var xs := [HelpHeader] + HelpRows(t, MaxNameLength(t));
    assert xs[1..] == HelpRows(t, MaxNameLength(t));
  }

  lemma HelpHeaderNoNewline()
    ensures '\n' !in HelpHeader
  {
    assert forall k :: 0 <= k < |HelpHeader| ==> HelpHeader[k] != '\n';
  }

  /** The help text splits at its newlines into the header and the rows. */
  lemma HelpLines(t: seq<Command>)
    requires WellFormedTable(t)
    ensures Split(HelpText(t), '\n') == [HelpHeader] + HelpRows(t, MaxNameLength(t))
  {
    var width := MaxNameLength(t);
    var xs := [HelpHeader] + HelpRows(t, width);
    HelpTextJoined(t);
    HelpHeaderNoNewline();
    forall k | 0 <= k < |xs| ensures '\n' !in xs[k] {
      if k > 0 {
        HelpRowNoNewline(t[k - 1], width);
      }
    }
    SplitJoin(xs, '\n');
  }

  /** `help` lists the header and then exactly one line per entry, in table
      order; each line shows its entry's name, and the descriptions all
      start in the same column, two past the longest name. */
  lemma HelpListing(t: seq<Command>)
    requires WellFormedTable(t)
    ensures var lines := Split(HelpText(t), '\n');
            var width := MaxNameLength(t);
            && |lines| == |t| + 1
            && lines[0] == HelpHeader
            && forall k :: 0 <= k < |t| ==>
                 && lines[k + 1] == HelpRow(t[k], width)
                 && RowName(lines[k + 1]) == t[k].name
                 && |lines[k + 1]| == width + 4 + |t[k].description|
                 && lines[k + 1][width + 4..] == t[k].description
  {
    var width := MaxNameLength(t);
    var rows := HelpRows(t, width);
    HelpLines(t);
    forall k | 0 <= k < |t|
      ensures RowName(rows[k]) == t[k].name
      ensures |rows[k]| == width + 4 + |t[k].description| && rows[k][width + 4..] == t[k].description
    {
      HelpRowLayout(t[k], width);
      HelpRowName(t[k], width);
    }
  }

  /** In the listing of a table with unique names, no two lines show the
      same name: every command is listed once. */
  lemma HelpListsEachOnce(t: seq<Command>)
    requires WellFormedTable(t) && NamesUnique(t)
    ensures var lines := Split(HelpText(t), '\n');
            forall i, j :: 1 <= i < j < |lines| ==> RowName(lines[i]) != RowName(lines[j])
  {
    HelpListing(t);
    var lines := Split(HelpText(t), '\n');
    forall i, j | 1 <= i < j < |lines| ensures RowName(lines[i]) != RowName(lines[j]) {
      assert RowName(lines[i]) == t[i - 1].name;
      assert RowName(lines[j]) == t[j - 1].name;
    }
  }

  /** The actual table satisfies what the listing lemmas need; its longest
      name, `register`, has eight characters. */
  lemma TableWellFormed()
    ensures WellFormedTable(Table)
    ensures MaxNameLength(Table) == 8
  {
    TableClean();
    assert |Table[9].name| == 8;
    assert forall k :: 0 <= k < |Table| ==> |Table[k].name| <= 8;
  }

  const Colors: seq<string> := ["green", "amber", "blue"]

  /** `colors.includes(args[0]) ? args[0] : 'green'`; a missing first
      argument is `undefined`, which is not in the list. */
  function ThemeColor(args: seq<string>): (color: string)
    ensures color in Colors
    ensures |args| > 0 && args[0] in Colors ==> color == args[0]
    ensures !(|args| > 0 && args[0] in Colors) ==> color == "green"
  {
    if |args| > 0 && args[0] in Colors then args[0] else "green"
  }

  const DefaultQuizTopic: string := "random quantum optics topic"
  const DefaultPapersQuery: string := "quantum optics"

  /** `joined || fallback` for the space-joined arguments. */
  function JoinedOr(joined: string, fallback: string): string {
    if joined == "" then fallback else joined
  }

  /** The handlers that answer through `queryAI`. */
  predicate AiBacked(h: Handler) {
    h == Ask || h == Explain || h == Quiz || h == Derive || h == Papers
  }

  /** What an AI-backed handler returns. It reads its arguments only
      through `!args.length` (`noArgs`) and `args.join(' ')` (`joined`):
      its guard text when it needs an argument and has none, otherwise
      the AI's answer to its prompt. */
  function AiAnswer(h: Handler, noArgs: bool, joined: string, env: Env): string
    requires AiBacked(h)
  {
    match h
    case Ask =>
      if noArgs then "Please enter your question"
      else QueryAI(env.ai, joined, "Provide detailed technical answer.")
    case Explain =>
      if noArgs then "Please specify a concept"
      else QueryAI(env.ai, "Explain " + joined + " in quantum optics",
                   "Include mathematical formalism and practical applications.")
    case Quiz =>
      QueryAI(env.ai, "Create 3 multiple choice questions about " + JoinedOr(joined, DefaultQuizTopic),
              "Format with letters (A-D). Include answers at the end.")
    case Derive =>
      if noArgs then "Please specify a formula/effect"
      else QueryAI(env.ai, "Derive " + joined + " step-by-step",
                   "Use proper mathematical notation with numbered steps.")
    case Papers =>
      QueryAI(env.ai, "Summarize these papers: " + FetchArxivPapers(env.fetch, JoinedOr(joined, DefaultPapersQuery)),
              "Provide bullet-point summaries with key equations.")
  }

  /** An AI-backed handler run on `args`. */
  function AskAi(h: Handler, args: seq<string>, env: Env): string
    requires AiBacked(h)
  {
    AiAnswer(h, |args| == 0, Join(args, " "), env)
  }

  /** Running one of the handlers that do not ask the AI. */
  function Builtin(h: Handler, args: seq<string>, env: Env): (out: Outcome)
    requires !AiBacked(h)
    ensures out.Threw? <==> (h == Login || h == Register) && env.modalMissing.Some?
    ensures out.Threw? ==> out.message == env.modalMissing.value
    ensures out.Returned? ==> (out.effect == ClearScreen <==> h == Clear)
    ensures out.Returned? ==> (out.effect == EndSession <==> h == Logout)
    ensures out.Returned? && out.text == "" ==> h == Clear
  {
    match h
    case Help => Returned(HelpText(Table), NoEffect)
    case Clear => Returned("", ClearScreen)
    case Login =>
      if env.modalMissing.Some? then Threw(env.modalMissing.value)
      else Returned("Please use the login form", NoEffect)
    case Logout => Returned("Logged out successfully", EndSession)
    case Register =>
      if env.modalMissing.Some? then Threw(env.modalMissing.value)
      else Returned("Please use the registration form", NoEffect)
    case Theme => Returned("Theme set to " + ThemeColor(args), NoEffect)
  }

  /** Running the handler `h` on `args`: the AI-backed handlers through
      `AskAi`, which never throws, the others as built-ins. */
  function Execute(h: Handler, args: seq<string>, env: Env): (out: Outcome)
    ensures out.Threw? <==> (h == Login || h == Register) && env.modalMissing.Some?
    ensures out.Threw? ==> out.message == env.modalMissing.value
    ensures out.Returned? ==> (out.effect == ClearScreen <==> h == Clear)
    ensures out.Returned? ==> (out.effect == EndSession <==> h == Logout)
    ensures out.Returned? && out.text == "" ==> h == Clear || AiBacked(h)
  {
    if AiBacked(h) then Returned(AskAi(h, args, env), NoEffect)
    else Builtin(h, args, env)
  }

  /** An AI-backed handler answers from `!args.length` and `args.join(' ')` alone. */
  lemma AiOutcome(h: Handler, args: seq<string>, env: Env)
    requires AiBacked(h)
    ensures Execute(h, args, env) == Returned(AiAnswer(h, |args| == 0, Join(args, " "), env), NoEffect)
  {
  }

  /** Without arguments `ask`, `explain` and `derive` answer with their
      guard text whatever the outside world does: the AI is not asked. */
  lemma GuardsIgnoreTheWorld(h: Handler, env1: Env, env2: Env)
    requires h == Ask || h == Explain || h == Derive
    ensures Execute(h, [], env1) == Execute(h, [], env2)
    ensures Execute(h, [], env1) == Returned(
              match h
              case Ask => "Please enter your question"
              case Explain => "Please specify a concept"
              case _ => "Please specify a formula/effect",
              NoEffect)
  {
  }

  /** `clear`, `login`, `logout` and `register` ignore their arguments and
      the AI: `clear` returns the empty string, `logout` its fixed
      message, and the two form commands their prompt unless the modal is
      missing. */
  lemma FixedReplies(args: seq<string>, env: Env)
    ensures Execute(Clear, args, env) == Returned("", ClearScreen)
    ensures Execute(Logout, args, env) == Returned("Logged out successfully", EndSession)
    ensures Execute(Login, args, env) ==
              if env.modalMissing.Some? then Threw(env.modalMissing.value)
              else Returned("Please use the login form", NoEffect)
    ensures Execute(Register, args, env) ==
              if env.modalMissing.Some? then Threw(env.modalMissing.value)
              else Returned("Please use the registration form", NoEffect)
  {
    assert Execute(Clear, args, env) == Builtin(Clear, args, env);
    assert Execute(Logout, args, env) == Builtin(Logout, args, env);
    assert Execute(Login, args, env) == Builtin(Login, args, env);
    assert Execute(Register, args, env) == Builtin(Register, args, env);
  }

  /** `quiz` and `papers` with nothing to join behave as if given their
      default topic. */
  lemma DefaultTopics(args: seq<string>, topic: seq<string>, env: Env)
    requires Join(args, " ") == ""
    ensures Join(topic, " ") == DefaultQuizTopic ==> Execute(Quiz, args, env) == Execute(Quiz, topic, env)
    ensures Join(topic, " ") == DefaultPapersQuery ==> Execute(Papers, args, env) == Execute(Papers, topic, env)
  {
    AiOutcome(Quiz, args, env);
    AiOutcome(Quiz, topic, env);
    AiOutcome(Papers, args, env);
    AiOutcome(Papers, topic, env);
  }

  /** The AI-backed handlers see their arguments only joined by spaces:
      two non-empty argument lists with the same join give the same result. */
  lemma ArgumentsOnlyJoined(h: Handler, args1: seq<string>, args2: seq<string>, env: Env)
    requires AiBacked(h)
    requires |args1| > 0 && |args2| > 0 && Join(args1, " ") == Join(args2, " ")
    ensures Execute(h, args1, env) == Execute(h, args2, env)
  {
    AiOutcome(h, args1, env);
    AiOutcome(h, args2, env);
  }

  /** `papers` hands the arXiv sentinel on to the AI like any list of titles. */
  lemma PapersForwardsSentinel(args: seq<string>, env: Env)
    requires env.fetch(ArxivUrl(JoinedOr(Join(args, " "), DefaultPapersQuery))).None?
    ensures Execute(Papers, args, env) ==
              Returned(QueryAI(env.ai, "Summarize these papers: " + ArxivError,
                               "Provide bullet-point summaries with key equations."), NoEffect)
  {
  }

  /** `theme` with an unknown colour falls back to green. */
  lemma ThemeFallback(args: seq<string>, env: Env)
    ensures Execute(Theme, args, env).Returned?
    ensures |args| > 0 && args[0] in Colors ==> Execute(Theme, args, env).text == "Theme set to " + args[0]
    ensures !(|args| > 0 && args[0] in Colors) ==> Execute(Theme, args, env).text == "Theme set to green"
  {
  }
}
