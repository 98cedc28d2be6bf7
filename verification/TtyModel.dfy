/** Nine terminals behind one screen: the saved records, and the nine independent terminals they simulate. */
module TtyModel {
  import opened Limits
  import opened ScreenModel

  // What belongs to one terminal: its screen and its current directory.
  datatype Vt = Vt(screen: Screen, dir: nat)

  // The live terminal, the saved records, the number of the live one, and who is logged in. Its own record is stale.
  datatype Machine = Machine(live: Vt, saved: seq<Vt>, current: nat, loggedIn: seq<bool>)

  datatype Action =
    | Print(c: char)
    | SetColor(fg: nat, bg: nat)
    | Clear
    | Enter(dir: nat)
    | LogIn                // the right password on the login screen
    | LogOut               // `exit`
    | Switch(tty: int)

  ghost predicate ValidVt(v: Vt) { ValidScreen(v.screen) }

  ghost predicate ValidMachine(m: Machine) {
    && |m.saved| == |m.loggedIn| == MAX_TTYS && m.current < MAX_TTYS && ValidVt(m.live)
    && (forall i :: 0 <= i < MAX_TTYS ==> ValidVt(m.saved[i]))
  }

  // ---------- one terminal ----------

  /** What an action other than a switch does to the terminal it is sent to. */
  function Alone(v: Vt, a: Action): (r: Vt)
    requires ValidVt(v)
    ensures ValidVt(r)
  {
    match a
    case Print(c) => Vt(PutChar(v.screen, c), v.dir)
    case SetColor(fg, bg) => Vt(Show(v.screen, Color(ColorByte(fg, bg))), v.dir)
    case Clear => Vt(Cleared(v.screen.color), v.dir)
    case Enter(dir) => Vt(v.screen, dir)
    case LogIn | LogOut | Switch(_) => v
  }

  function AloneAll(v: Vt, acts: seq<Action>): (r: Vt)
    requires ValidVt(v)
    ensures ValidVt(r)
    decreases |acts|
  {
    if acts == [] then v else Alone(AloneAll(v, acts[..|acts| - 1]), acts[|acts| - 1])
  }

  // ---------- the kernel's one screen and nine records ----------

  /** `terminal_setcolor` also writes the colour into the record of the live terminal. */
  function TouchRecord(m: Machine, a: Action): (saved: seq<Vt>)
    requires ValidMachine(m)
    ensures |saved| == MAX_TTYS && forall i :: 0 <= i < MAX_TTYS ==> ValidVt(saved[i])
    ensures forall i :: 0 <= i < MAX_TTYS && i != m.current ==> saved[i] == m.saved[i]
  {
    if a.SetColor? then
      var v := m.saved[m.current];
      m.saved[m.current := Vt(Show(v.screen, Color(ColorByte(a.fg, a.bg))), v.dir)]
    else m.saved
  }

  /** `switch_tty`: save the live terminal in its record, then load the other record. */
  function SwitchTo(m: Machine, tty: int): (r: Machine)
    requires ValidMachine(m)
    ensures ValidMachine(r)
  {
    if tty < 0 || tty >= MAX_TTYS then m
    else
      var saved := m.saved[m.current := m.live];
      Machine(saved[tty], saved, tty, m.loggedIn)
  }

  /** What an action does to the flag of the terminal it is sent to. */
  function Flag(loggedIn: bool, a: Action): bool {
    match a
    case LogIn => true
    case LogOut => false
    case _ => loggedIn
  }

  function FlagAll(loggedIn: bool, acts: seq<Action>): bool
    decreases |acts|
  {
    if acts == [] then loggedIn else Flag(FlagAll(loggedIn, acts[..|acts| - 1]), acts[|acts| - 1])
  }

  function Perform(m: Machine, a: Action): (r: Machine)
    requires ValidMachine(m)
    ensures ValidMachine(r)
  {
    if a.Switch? then SwitchTo(m, a.tty)
    else Machine(Alone(m.live, a), TouchRecord(m, a), m.current, m.loggedIn[m.current := Flag(m.loggedIn[m.current], a)])
  }

  function PerformAll(m: Machine, acts: seq<Action>): (r: Machine)
    requires ValidMachine(m)
    ensures ValidMachine(r)
    decreases |acts|
  {
    if acts == [] then m else Perform(PerformAll(m, acts[..|acts| - 1]), acts[|acts| - 1])
  }

  /** `terminal_initialize`: a cleared screen, nine records at their initial values, nobody logged in. */
  function PowerOn(): (m: Machine)
    ensures ValidMachine(m)
  {
    Machine(Vt(Cleared(ColorByte(15, 0)), 1), seq(MAX_TTYS, _ => InitialRecord()), 0, seq(MAX_TTYS, _ => false))
  }

  /** Filling a record's buffer with space bytes makes each cell a space of colour 0x20. */
  function InitialRecord(): (v: Vt)
    ensures ValidVt(v)
  {
    Vt(Screen(Blanks(CELLS, 0x20), 0, 0, 15), 1)
  }

  // ---------- nine independent terminals ----------

  /** Terminal `i` as its user knows it: live if it is on screen, else as recorded. */
  function View(m: Machine, i: nat): Vt
    requires ValidMachine(m) && i < MAX_TTYS
  {
    if i == m.current then m.live else m.saved[i]
  }

  /** The terminal that is on screen after some actions. */
  function OnScreen(first: nat, acts: seq<Action>): nat
    decreases |acts|
  {
    if acts == [] then first
    else
      var a := acts[|acts| - 1];
      if a.Switch? && 0 <= a.tty < MAX_TTYS then a.tty else OnScreen(first, acts[..|acts| - 1])
  }

  /** The actions that were sent while terminal `i` was on screen. */
  function SentTo(first: nat, acts: seq<Action>, i: nat): seq<Action>
    decreases |acts|
  {
    if acts == [] then []
    else
      var before := acts[..|acts| - 1];
      SentTo(first, before, i) + if OnScreen(first, before) == i && !acts[|acts| - 1].Switch? then [acts[|acts| - 1]] else []
  }

  /** One action changes the view of the terminal on screen only; a switch changes none. */
  lemma PerformViews(m: Machine, a: Action, i: nat)
    requires ValidMachine(m) && i < MAX_TTYS
    ensures View(Perform(m, a), i) == if i == m.current then Alone(View(m, i), a) else View(m, i)
    ensures Perform(m, a).loggedIn[i] == if i == m.current then Flag(m.loggedIn[i], a) else m.loggedIn[i]
    ensures Perform(m, a).current == OnScreen(m.current, [a])
  {
    assert [a][..0] == [];
  }

  /**
   The virtual TTY refinement: for any interleaving of output, clearing, colour and directory changes,
   logins and switches, each terminal is as if it had run alone on the actions sent while it was on screen; so is its login.
   */
  lemma {:induction false} EachRunsAlone(m: Machine, acts: seq<Action>, i: nat)
    requires ValidMachine(m) && i < MAX_TTYS
    ensures View(PerformAll(m, acts), i) == AloneAll(View(m, i), SentTo(m.current, acts, i))
    ensures PerformAll(m, acts).loggedIn[i] == FlagAll(m.loggedIn[i], SentTo(m.current, acts, i))
    ensures PerformAll(m, acts).current == OnScreen(m.current, acts)
    decreases |acts|
  {
    if acts != [] {
      var before, a := acts[..|acts| - 1], acts[|acts| - 1];
      EachRunsAlone(m, before, i);
      PerformViews(PerformAll(m, before), a, i);
      SentStep(View(m, i), m.loggedIn[i], SentTo(m.current, before, i), a);
    }
  }

  lemma SentStep(v: Vt, flag: bool, sent: seq<Action>, a: Action)
    requires ValidVt(v)
    ensures AloneAll(v, sent + [a]) == Alone(AloneAll(v, sent), a) && sent + [] == sent
    ensures FlagAll(flag, sent + [a]) == Flag(FlagAll(flag, sent), a)
  {
    assert (sent + [a])[..|sent|] == sent;
  }

  /** Nothing sent to other terminals shows when switching back. */
  lemma SwitchBack(m: Machine, acts: seq<Action>, i: nat)
    requires ValidMachine(m) && i < MAX_TTYS && SentTo(m.current, acts, i) == []
    ensures SwitchTo(PerformAll(m, acts), i).live == View(m, i)
  {
    EachRunsAlone(m, acts, i);
  }
}
