/**
  The terminal: a scrollback of output lines, each a text and a flag (the
  flag marks the echo of an input and the error-styled lines), the Enter
  handler that dispatches one line of input to the command table, and the
  two buttons of the login form that talk to the user registry.
 */
module Terminal {
  import opened Wrappers
  import opened Text
  import opened Assistant
  import opened Commands
  import opened Credentials

  /** One `addOutput(text, flag)`; an omitted flag is `false`. */
  datatype OutputLine = OutputLine(text: string, flagged: bool)

  /** A line of input taken apart: the trimmed text, the command token
      and the argument tokens. */
  datatype Invocation = Invocation(input: string, name: string, args: seq<string>)

  /** `const [command, ...args] = input.split(' ')` on the trimmed input. */
  function Parse(raw: string): (inv: Invocation)
    ensures inv.input == Trim(raw)
    ensures [inv.name] + inv.args == Split(inv.input, ' ')
  {
    var parts := Split(Trim(raw), ' ');
    assert [parts[0]] + parts[1..] == parts;
    Invocation(Trim(raw), parts[0], parts[1..])
  }

  /** The tokens joined by single spaces give back the trimmed input and
      none of them holds a space; the input being trimmed, the arguments
      are empty exactly when their join is, so the handlers' two ways of
      asking for "no argument" (`!args.length`, `args.join(' ') || ...`)
      agree. */
  lemma ParseTokens(raw: string)
    ensures var inv := Parse(raw);
            && Join([inv.name] + inv.args, " ") == inv.input
            && ' ' !in inv.name && (forall k :: 0 <= k < |inv.args| ==> ' ' !in inv.args[k])
            && (inv.args == [] <==> Join(inv.args, " ") == "")
  {
    var inv := Parse(raw);
    JoinSplit(inv.input, ' ');
    if inv.args != [] {
      assert ([inv.name] + inv.args)[1..] == inv.args;
      assert inv.input == inv.name + " " + Join(inv.args, " ");
    }
  }

  /** Blank input parses to the empty command with no arguments. */
  lemma BlankParse(raw: string)
    requires AllWhitespace(raw)
    ensures Parse(raw).input == "" && Parse(raw).name == "" && Parse(raw).args == []
  {
    assert Split("", ' ') == [""];
  }

  /** What the handler of a known command does to the page besides its
      text: only the `clear` and `logout` handlers touch anything, and
      they always do. */
  function EffectOf(inv: Invocation, env: Env): (e: Effect)
    ensures Lookup(inv.name).Some? && Execute(Lookup(inv.name).value.handler, inv.args, env).Returned? ==>
              e == Execute(Lookup(inv.name).value.handler, inv.args, env).effect
  {
    match Lookup(inv.name)
    case None => NoEffect
    case Some(c) =>
      if c.handler == Clear then ClearScreen
      else if c.handler == Logout then EndSession
      else NoEffect
  }

  /** The line, if any, that follows the echo: the not-found message, the
      message of what the handler threw, or the handler's non-empty text. */
  function Reply(inv: Invocation, env: Env): seq<OutputLine> {
    match Lookup(inv.name)
    case None => [OutputLine("Command not found: " + inv.name, true)]
    case Some(c) =>
      match Execute(c.handler, inv.args, env)
      case Threw(m) => [OutputLine("Error: " + m, true)]
      case Returned(t, _) => if t == "" then [] else [OutputLine(t, false)]
  }

  /** The scrollback after one Enter: the echo of the trimmed input is
      appended, the handler runs (and `clear` wipes every line, the echo
      included), then the reply is appended. */
  function Scrollback(lines: seq<OutputLine>, inv: Invocation, env: Env): seq<OutputLine> {
    (if EffectOf(inv, env) == ClearScreen then [] else lines + [OutputLine(inv.input, true)])
    + Reply(inv, env)
  }

  /** The command table is reached by name: `clear` wipes the screen and
      `logout` ends the session, and no other input does either. */
  lemma EffectByName(inv: Invocation, env: Env)
    ensures EffectOf(inv, env) == ClearScreen <==> inv.name == "clear"
    ensures EffectOf(inv, env) == EndSession <==> inv.name == "logout"
  {
    LookupHandler(inv.name);
  }

  /** At most one line follows the echo; it is flagged exactly when it
      reports an unknown command or an exception. */
  lemma ReplyShape(inv: Invocation, env: Env)
    ensures |Reply(inv, env)| <= 1
    ensures Lookup(inv.name).None? ==> Reply(inv, env) == [OutputLine("Command not found: " + inv.name, true)]
    ensures Reply(inv, env) != [] ==>
              (Reply(inv, env)[0].flagged <==>
                 Lookup(inv.name).None? || Execute(Lookup(inv.name).value.handler, inv.args, env).Threw?)
  {
  }

  /** Every input other than `clear` keeps the scrollback, appends the echo
      of the trimmed input, flagged, and then at most one line. */
  lemma AppendOnly(lines: seq<OutputLine>, inv: Invocation, env: Env)
    requires inv.name != "clear"
    ensures var after := Scrollback(lines, inv, env);
            && |lines| + 1 <= |after| <= |lines| + 2
            && after[..|lines|] == lines
            && after[|lines|] == OutputLine(inv.input, true)
  {
    EffectByName(inv, env);
    ReplyShape(inv, env);
    var after := Scrollback(lines, inv, env);
    assert after == lines + [OutputLine(inv.input, true)] + Reply(inv, env);
  }

  lemma ClearHandlerEmpties(lines: seq<OutputLine>, inv: Invocation, env: Env, c: Command)
    requires c in Table && inv.name == c.name && c.handler == Clear
    ensures Scrollback(lines, inv, env) == []
  {
    KnownCommand(lines, inv, env, c);
  }

  /** `clear` leaves an empty scrollback, whatever it held. */
  lemma ClearEmpties(lines: seq<OutputLine>, inv: Invocation, env: Env)
    requires inv.name == "clear"
    ensures Scrollback(lines, inv, env) == []
  {
    LookupHandler(inv.name);
    ClearHandlerEmpties(lines, inv, env, Lookup(inv.name).value);
  }

  lemma LogoutHandlerReply(lines: seq<OutputLine>, inv: Invocation, env: Env, c: Command)
    requires c in Table && inv.name == c.name && c.handler == Logout
    ensures Scrollback(lines, inv, env) ==
              lines + [OutputLine(inv.input, true), OutputLine("Logged out successfully", false)]
  {
    KnownCommand(lines, inv, env, c);
    assert Execute(c.handler, inv.args, env) == Returned("Logged out successfully", EndSession);
  }

  /** `logout` prints its message after the echo (and ends the session,
      see `Terminal.Submit`). */
  lemma LogoutReply(lines: seq<OutputLine>, inv: Invocation, env: Env)
    requires inv.name == "logout"
    ensures Scrollback(lines, inv, env) ==
              lines + [OutputLine(inv.input, true), OutputLine("Logged out successfully", false)]
  {
    LookupHandler(inv.name);
    LogoutHandlerReply(lines, inv, env, Lookup(inv.name).value);
  }

  /** A token outside the table gives the echo and the not-found line. */
  lemma UnknownCommand(lines: seq<OutputLine>, inv: Invocation, env: Env)
    requires !HasName(Table, inv.name)
    ensures Scrollback(lines, inv, env) ==
              lines + [OutputLine(inv.input, true), OutputLine("Command not found: " + inv.name, true)]
  {
    assert inv.name != "clear" by {
      assert Table[6].name == "clear";
    }
    EffectByName(inv, env);
  }

  /** A blank line is not a no-op: it echoes an empty line and reports the
      empty command as not found. */
  lemma EmptyNameUnknown()
    ensures !HasName(Table, "")
  {
    TableClean();
  }

  lemma BlankInput(lines: seq<OutputLine>, raw: string, env: Env)
    requires AllWhitespace(raw)
    ensures Parse(raw).input == "" && Parse(raw).name == ""
    ensures Scrollback(lines, Parse(raw), env) ==
              lines + [OutputLine(Parse(raw).input, true), OutputLine("Command not found: " + Parse(raw).name, true)]
  {
    var inv := Parse(raw);
    BlankParse(raw);
    EmptyNameUnknown();
    UnknownCommand(lines, inv, env);
  }

  /** A command the table holds: the echo, unless the handler is `clear`'s,
      then the message of what the handler threw or its non-empty text. */
  lemma KnownCommand(lines: seq<OutputLine>, inv: Invocation, env: Env, c: Command)
    requires c in Table && inv.name == c.name
    ensures var out := Execute(c.handler, inv.args, env);
            Scrollback(lines, inv, env) ==
              (if c.handler == Clear then [] else lines + [OutputLine(inv.input, true)])
              + (if out.Threw? then [OutputLine("Error: " + out.message, true)]
                 else if out.text == "" then [] else [OutputLine(out.text, false)])
  {
    LookupFindsEveryEntry(c);
  }

  /** What the login button prints. */
  function LoginLine(users: map<string, Record>, username: string, password: string): (line: OutputLine)
    ensures line.flagged <==> !Accepts(users, username, password)
    ensures username !in users ==> line == OutputLine("Invalid credentials", true)
  {
    if Accepts(users, username, password) then OutputLine("Welcome back, " + username + "!", false)
    else OutputLine("Invalid credentials", true)
  }

  /** What the register button prints for each outcome. */
  function RegisterLine(d: Registration, username: string): (line: OutputLine)
    ensures line.flagged <==> d != Created
  {
    match d
    case Created => OutputLine("Account created for " + username + "!", false)
    case Taken => OutputLine("Username taken", true)
    case TooShort => OutputLine("Username (3+) and password (6+) too short", true)
  }

  /** The login button's two messages: a welcome naming the user when the
      stored password matches, `Invalid credentials` otherwise. */
  lemma LoginMessages(users: map<string, Record>, username: string, password: string)
    ensures Accepts(users, username, password) ==>
              LoginLine(users, username, password) == OutputLine("Welcome back, " + username + "!", false)
    ensures !Accepts(users, username, password) ==>
              LoginLine(users, username, password) == OutputLine("Invalid credentials", true)
  {
  }

  /** The register button's message for each way the checks can end: a
      known name is reported taken whatever the lengths, an unknown name
      with a short name or password gets the length rule, and otherwise
      the new account is announced by name. */
  lemma RegisterMessages(users: map<string, Record>, username: string, password: string)
    ensures username in users ==>
              RegisterLine(Decide(users, username, password), username) == OutputLine("Username taken", true)
    ensures username !in users && (|username| < 3 || |password| < 6) ==>
              RegisterLine(Decide(users, username, password), username)
                == OutputLine("Username (3+) and password (6+) too short", true)
    ensures username !in users && |username| >= 3 && |password| >= 6 ==>
              RegisterLine(Decide(users, username, password), username)
                == OutputLine("Account created for " + username + "!", false)
  {
  }

  class Terminal {
    var lines: seq<OutputLine>
    const session: Registry

    ghost predicate Valid()
      reads this, session
    {
      session.Valid()
    }

    /** A fresh page: an empty scrollback over the loaded registry. */
    constructor (session: Registry)
      requires session.Valid()
      ensures Valid()
      ensures lines == [] && this.session == session
    {
      lines := [];
      this.session := session;
    }

    /** The Enter key: dispatch one line of input. */
    method Submit(raw: string, env: Env)
      requires Valid()
      modifies this, session
      ensures Valid()
      ensures lines == Scrollback(old(lines), Parse(raw), env)
      ensures session.users == old(session.users) && session.stored == old(session.stored)
      ensures session.currentUser == if Parse(raw).name == "logout" then None else old(session.currentUser)
    {
      var inv := Parse(raw);
      Dispatch(inv, env);
    }

    /** Everything after the split: the echo, the lookup, the handler and its reply. */
    method Dispatch(inv: Invocation, env: Env)
      requires Valid()
      modifies this, session
      ensures Valid()
      ensures lines == Scrollback(old(lines), inv, env)
      ensures session.users == old(session.users) && session.stored == old(session.stored)
      ensures session.currentUser == if inv.name == "logout" then None else old(session.currentUser)
    {
      LookupHandler(inv.name);
      ghost var before := lines;
      lines := lines + [OutputLine(inv.input, true)];
      var found := Lookup(inv.name);
      match found {
        case None =>
          lines := lines + [OutputLine("Command not found: " + inv.name, true)];
        case Some(c) =>
          KnownCommand(before, inv, env, c);
          Run(c, inv.args, env);
      }
    }

    /** The `try` around a known command: run its handler, then print what
        it threw, flagged, or the text it returned, unless that is empty. */
    method Run(c: Command, args: seq<string>, env: Env)
      requires Valid()
      modifies this, session
      ensures Valid()
      ensures var out := Execute(c.handler, args, env);
              lines == (if c.handler == Clear then [] else old(lines))
                       + (if out.Threw? then [OutputLine("Error: " + out.message, true)]
                          else if out.text == "" then [] else [OutputLine(out.text, false)])
      ensures session.users == old(session.users) && session.stored == old(session.stored)
      ensures session.currentUser == if c.handler == Logout then None else old(session.currentUser)
    {
      var out := Execute(c.handler, args, env);
      match out {
        case Threw(m) =>
          lines := lines + [OutputLine("Error: " + m, true)];
        case Returned(text, effect) =>
          if effect == ClearScreen {
            lines := [];
          } else if effect == EndSession {
            session.Logout();
          }
          if text != "" {
            lines := lines + [OutputLine(text, false)];
          }
      }
    }

    /** The login button of the form. On a match the user is signed in
        before the modal is hidden; when `#login-modal` is missing that
        step throws out of the listener and the welcome is never printed. */
    method SubmitLogin(username: string, password: string, env: Env)
      requires Valid()
      modifies this, session
      ensures Valid()
      ensures var ok := Accepts(old(session.users), username, password);
              lines == old(lines) + (if ok && env.modalMissing.Some? then [] else [LoginLine(old(session.users), username, password)])
      ensures session.users == old(session.users) && session.stored == old(session.stored)
      ensures session.currentUser ==
                if Accepts(old(session.users), username, password) then Some(username)
                else old(session.currentUser)
    {
      var ok := session.Login(username, password);
      if ok {
        if env.modalMissing.None? {
          lines := lines + [OutputLine("Welcome back, " + username + "!", false)];
        }
      } else {
        lines := lines + [OutputLine("Invalid credentials", true)];
      }
    }

    /** The register button of the form. A creation updates the map, the
        storage and the signed-in user before the modal is hidden; when
        `#login-modal` is missing that step throws out of the listener and
        the announcement is never printed. */
    method SubmitRegister(username: string, password: string, env: Env)
      requires Valid()
      modifies this, session
      ensures Valid()
      ensures var d := Decide(old(session.users), username, password);
              && lines == old(lines) + (if d == Created && env.modalMissing.Some? then [] else [RegisterLine(d, username)])
              && (d == Created ==>
                    && session.users == old(session.users)[username := Record(password, map[])]
                    && session.currentUser == Some(username)
                    && session.stored == Some(session.users))
              && (d != Created ==>
                    && session.users == old(session.users)
                    && session.currentUser == old(session.currentUser)
                    && session.stored == old(session.stored))
    {
      var d := session.Register(username, password);
      match d {
        case Created =>
          if env.modalMissing.None? {
            lines := lines + [OutputLine("Account created for " + username + "!", false)];
          }
        case Taken =>
          lines := lines + [OutputLine("Username taken", true)];
        case TooShort =>
          lines := lines + [OutputLine("Username (3+) and password (6+) too short", true)];
      }
    }
  }
}
