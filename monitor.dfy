/**
 * The kernel monitor's command interpreter: `runcmd` parses a line with the
 * tokenizer, looks its first word up in the command table and invokes the
 * handler it finds; `monitor` reads lines and runs them until a handler
 * returns a negative value.
 */
module Monitor {
  import opened Wrappers
  import opened Tokenizer
  import opened Commands
  import opened Color

  /** How a call of `runcmd` ends: with the value the handler (or `runcmd`
      itself) returns, or Undefined when `change_color` is invoked with fewer
      than three arguments and dereferences a NULL or unset argv slot. */
  datatype Status = Returned(code: int) | Undefined

  /** The command word of a line that has at least one token. */
  function FirstToken(line: seq<char>): (name: seq<char>)
    requires Starts(line, 0) != []
    ensures |name| > 0
    ensures forall k :: 0 <= k < |name| ==> !IsSpace(name[k])
  {
    StartsBounds(line, 0);
    Token(line, Starts(line, 0)[0])
  }

  /** The table entry `runcmd` invokes for `line`: none for an empty line,
      for a line with too many tokens, or for an unknown command word. */
  function Dispatched(line: seq<char>): Option<nat>
  {
    var ts := Starts(line, 0);
    if |ts| == 0 || |ts| >= MAXARGS then None
    else FindCommand(FirstToken(line))
  }

  /** What `runcmd` returns for `line`. */
  function Outcome(line: seq<char>): Status
  {
    match Dispatched(line)
    case None => Returned(0)
    case Some(i) =>
      if i < |Table| && Table[i].handler == ChangeColor && |Starts(line, 0)| < 4 then Undefined
      else Returned(0)
  }

  /** The attribute word after `runcmd` ran `line` with `mode` in place:
      only a `change_color` with three arguments replaces it. */
  function ModeAfter(line: seq<char>, mode: bv16): bv16
  {
    var ts := Starts(line, 0);
    match Dispatched(line)
    case None => mode
    case Some(i) =>
      if i < |Table| && Table[i].handler == ChangeColor && |ts| >= 4 then
        StartsBounds(line, 0);
        Attribute(line[ts[1]], line[ts[2]], line[ts[3]])
      else mode
  }

  /**
   * The dispatch rules of `runcmd`. An empty line and a line with too many
   * tokens invoke nothing, return 0 and leave the attribute word alone. The
   * outcome is undefined exactly for `change_color` with fewer than three
   * arguments, and only `change_color` with at least three arguments
   * replaces the attribute word, by the encoding of their first characters.
   */
  lemma DispatchRules(line: seq<char>, mode: bv16)
    ensures var ts := Starts(line, 0);
      (|ts| == 0 || |ts| >= MAXARGS) ==> Outcome(line) == Returned(0) && ModeAfter(line, mode) == mode
    ensures var ts := Starts(line, 0);
      Outcome(line) == Undefined <==> 0 < |ts| < 4 && FirstToken(line) == "change_color"
    ensures var ts := Starts(line, 0);
      4 <= |ts| < MAXARGS && FirstToken(line) == "change_color" ==>
        Outcome(line) == Returned(0) &&
        ts[1] < |line| && ts[2] < |line| && ts[3] < |line| &&
        ModeAfter(line, mode) == Attribute(line[ts[1]], line[ts[2]], line[ts[3]])
    ensures var ts := Starts(line, 0);
      ModeAfter(line, mode) != mode ==> 4 <= |ts| < MAXARGS && FirstToken(line) == "change_color"
  {
    StartsBounds(line, 0);
    var ts := Starts(line, 0);
    if 0 < |ts| < MAXARGS {
      FindCommandExact(FirstToken(line), 2);
    }
  }

  /** The entry invoked is the first (and only) one named by the command
      word; a word naming no entry invokes nothing and returns 0. */
  lemma DispatchByName(line: seq<char>, i: nat)
    requires i < |Table|
    ensures Dispatched(line) == Some(i) <==>
      0 < |Starts(line, 0)| < MAXARGS && FirstToken(line) == Table[i].name
    ensures (0 < |Starts(line, 0)| < MAXARGS &&
             forall j :: 0 <= j < |Table| ==> Table[j].name != FirstToken(line)) ==>
      Dispatched(line) == None && Outcome(line) == Returned(0)
  {
  }

  /** A line made only of whitespace has no tokens, so it returns 0 and
      invokes nothing. */
  lemma BlankLine(line: seq<char>, mode: bv16)
    requires forall k :: 0 <= k < |line| ==> IsSpace(line[k])
    ensures Starts(line, 0) == []
    ensures Dispatched(line) == None
    ensures Outcome(line) == Returned(0) && ModeAfter(line, mode) == mode
  {
    NoTokens(line, 0);
  }

  /** No handler of the shipped table and no path of `runcmd` returns a
      negative value. */
  lemma NeverNegative(line: seq<char>)
    ensures Outcome(line).Returned? ==> Outcome(line).code == 0
  {
  }

  /**
   * `runcmd`: tokenize `buf` in place, then invoke the handler the first
   * word names. `invoked` is the table entry whose handler is called and
   * `listing` the lines `help` prints. The trap frame is not modelled;
   * `console` holds the attribute word `change_color` writes.
   */
  method RunCmd(buf: array<char>, console: Console)
    returns (st: Status, invoked: Option<nat>, listing: seq<(string, string)>)
    requires NUL in buf[..]
    modifies buf, console
    ensures Gobbled(old(buf[..]), buf[..], GobbleLimit(CLine(old(buf[..]))))
    ensures invoked == Dispatched(CLine(old(buf[..])))
    ensures invoked == Some(0) ==>
      |listing| == |Table| &&
      forall i :: 0 <= i < |Table| ==> listing[i] == (Table[i].name, Table[i].desc)
    ensures invoked != Some(0) ==> listing == []
    ensures st == Outcome(CLine(old(buf[..])))
    ensures console.cgaMode == ModeAfter(CLine(old(buf[..])), old(console.cgaMode))
  {
    ghost var s := buf[..];
    ghost var line := CLine(s);
    ghost var ts := Starts(line, 0);
    listing := [];
    var res, argv := Tokenize(buf);
    if res.TooMany? {
      return Returned(0), None, listing;
    }
    var argc := res.argc;
    if argc == 0 {
      return Returned(0), None, listing;
    }
    ArgumentsVerbatim(s, buf[..]);
    StartsBounds(line, 0);
    var name := CStr(buf[..], argv[0].offset);
    assert name == FirstToken(line);
    var found := Lookup(name);
    invoked := found;
    match found {
      case None =>
        st := Returned(0);
      case Some(i) =>
        match Table[i].handler {
          case Help =>
            var r;
            r, listing := MonHelp();
            st := Returned(r);
          case KernInfo =>
            st := Returned(0);
          case ChangeColor =>
            if argc < 4 {
              st := Undefined;
            } else {
              forall j | 1 <= j <= 3 ensures buf[ts[j]] == line[ts[j]] {
                assert Kept(s, buf[..], GobbleLimit(line), ts[j]);
              }
              var r := console.ChangeColor(argc, argv, buf);
              st := Returned(r);
            }
        }
    }
  }

  /** How the monitor loop ends: still waiting for input once the given
      reads are used up (the source loops forever), or stopped at the read
      with index `at`. */
  datatype Stop = Waiting | Exited(at: nat, code: int) | UndefinedAt(at: nat)

  /** The C string a line read by `readline` leaves in its buffer. */
  function Line(read: seq<char>): seq<char>
  {
    CLine(read + [NUL])
  }

  /** A read the loop continues after: a null read, or a line whose
      `runcmd` returns a non-negative value. */
  predicate Proceeds(read: Option<seq<char>>)
  {
    read.None? || (Outcome(Line(read.value)).Returned? && Outcome(Line(read.value)).code >= 0)
  }

  /** How the loop stops after the result of one `runcmd`. */
  function Verdict(at: nat, st: Status): Stop
  {
    match st
    case Undefined => UndefinedAt(at)
    case Returned(code) => if code < 0 then Exited(at, code) else Waiting
  }

  /** The loop run over the reads from index `i` on, with the attribute word
      `mode`: where it stops and the attribute word it leaves. */
  function Session(input: seq<Option<seq<char>>>, i: nat, mode: bv16): (Stop, bv16)
    decreases |input| - i
  {
    if i >= |input| then (Waiting, mode)
    else if input[i].None? then Session(input, i + 1, mode)
    else
      var line := Line(input[i].value);
      var v := Verdict(i, Outcome(line));
      if v == Waiting then Session(input, i + 1, ModeAfter(line, mode))
      else (v, ModeAfter(line, mode))
  }

  /** The loop is still waiting for input exactly when every read proceeds;
      null reads are skipped. */
  lemma {:induction false} SessionWaits(input: seq<Option<seq<char>>>, i: nat, mode: bv16)
    ensures Session(input, i, mode).0 == Waiting <==> forall k :: i <= k < |input| ==> Proceeds(input[k])
    decreases |input| - i
  {
    if i < |input| {
      var mode' := if input[i].None? then mode else ModeAfter(Line(input[i].value), mode);
      SessionWaits(input, i + 1, mode');
    }
  }

  /** Otherwise it stops exactly at the first read that does not proceed,
      with the verdict of that read's `runcmd`. */
  lemma {:induction false} SessionStopsAt(input: seq<Option<seq<char>>>, i: nat, mode: bv16)
    ensures var stop := Session(input, i, mode).0;
      stop != Waiting ==>
        i <= stop.at < |input| && input[stop.at].Some? && !Proceeds(input[stop.at]) &&
        stop == Verdict(stop.at, Outcome(Line(input[stop.at].value))) &&
        forall k :: i <= k < stop.at ==> Proceeds(input[k])
    decreases |input| - i
  {
    if i < |input| {
      var mode' := if input[i].None? then mode else ModeAfter(Line(input[i].value), mode);
      SessionStopsAt(input, i + 1, mode');
    }
  }

  /** With the shipped table the monitor never exits: it either keeps
      reading or hits the undefined `change_color` call. */
  lemma {:induction false} NeverExits(input: seq<Option<seq<char>>>, i: nat, mode: bv16)
    ensures !Session(input, i, mode).0.Exited?
    decreases |input| - i
  {
    if i < |input| {
      var mode' := if input[i].None? then mode else ModeAfter(Line(input[i].value), mode);
      NeverExits(input, i + 1, mode');
      if input[i].Some? {
        NeverNegative(Line(input[i].value));
      }
    }
  }

  /**
   * `monitor`: read lines and run each non-null one until `runcmd` returns a
   * negative value. `input` is the sequence of `readline` results (None for
   * a NULL read); the banner output is not modelled.
   */
  method RunMonitor(input: seq<Option<seq<char>>>, console: Console) returns (stop: Stop)
    modifies console
    ensures (stop, console.cgaMode) == Session(input, 0, old(console.cgaMode))
  {
    var i := 0;
    stop := Waiting;
    while i < |input| && stop == Waiting
      invariant i <= |input|
      invariant stop == Waiting ==> Session(input, i, console.cgaMode) == Session(input, 0, old(console.cgaMode))
      invariant stop != Waiting ==> (stop, console.cgaMode) == Session(input, 0, old(console.cgaMode))
    {
      match input[i] {
        case None =>
        case Some(l) =>
          var buf := new char[|l| + 1](k => if 0 <= k < |l| then l[k] else NUL);
          assert buf[..] == l + [NUL];
          var st, _, _ := RunCmd(buf, console);
          stop := Verdict(i, st);
      }
      i := i + 1;
    }
  }
}
