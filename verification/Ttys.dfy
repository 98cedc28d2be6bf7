/** Saving, restoring and switching the TTYs: copying between the screen buffer and the records in place. */
module Ttys {
  import opened Limits
  import opened ScreenModel
  import opened TextLayout
  import opened TtyModel
  import opened TtyScreens
  import opened Terminal

  // The scalar fields of a `TTY`; the saved screen is in `buffers`.
  datatype Record = Record(row: nat, column: nat, color: nat, dir: nat, loggedIn: bool)

  class VirtualTtys {
    const console: Console
    const records: array<Record>
    const buffers: array3<Cell>
    var currentTty: nat
    var currentInode: nat

    ghost predicate Sized() {
      && records.Length == MAX_TTYS && console.buffer.Length == CELLS
      && buffers.Length0 == MAX_TTYS && buffers.Length1 == SCREEN_HEIGHT && buffers.Length2 == SCREEN_WIDTH
    }

    ghost function SavedCells(t: nat): (r: seq<Cell>)
      requires Sized() && t < MAX_TTYS
      reads buffers
      ensures |r| == CELLS
      ensures forall i :: 0 <= i < CELLS ==> r[i] == buffers[t, i / SCREEN_WIDTH, i % SCREEN_WIDTH]
    {
      seq(CELLS, i requires 0 <= i < CELLS && Sized() && t < MAX_TTYS reads buffers => buffers[t, i / SCREEN_WIDTH, i % SCREEN_WIDTH])
    }

    ghost function SavedVt(t: nat): Vt
      requires Sized() && t < MAX_TTYS
      reads buffers, records
    {
      Vt(Screen(SavedCells(t), records[t].row, records[t].column, records[t].color), records[t].dir)
    }

    ghost function State(): (m: Machine)
      requires Sized()
      reads this, console, console.buffer, buffers, records
      ensures |m.saved| == |m.loggedIn| == MAX_TTYS
      ensures forall t :: 0 <= t < MAX_TTYS ==> m.saved[t] == SavedVt(t) && m.loggedIn[t] == records[t].loggedIn
    {
      Machine(Vt(console.State(), currentInode),
              seq(MAX_TTYS, t requires 0 <= t < MAX_TTYS && Sized() reads buffers, records => SavedVt(t)),
              currentTty,
              seq(MAX_TTYS, t requires 0 <= t < MAX_TTYS && Sized() reads records => records[t].loggedIn))
    }

    ghost predicate Valid()
      reads this, console, console.buffer, buffers, records
    {
      Sized() && console.Valid() && ValidMachine(State())
    }

    constructor ()
      ensures Valid() && fresh(console) && fresh(console.buffer) && fresh(records) && fresh(buffers)
      ensures State() == PowerOn()
    {
      console := new Console(ColorByte(15, 0));
      records := new Record[MAX_TTYS](_ => Record(0, 0, 15, 1, false));
      buffers := new Cell[MAX_TTYS, SCREEN_HEIGHT, SCREEN_WIDTH]((_, _, _) => Cell(' ', 0x20));
      currentTty, currentInode := 0, 1;
      new;
      console.Clear();
      assert forall t :: 0 <= t < MAX_TTYS ==> SavedCells(t) == Blanks(CELLS, 0x20);
      assert State().saved == PowerOn().saved && State().loggedIn == PowerOn().loggedIn;
    }

    method SaveTtyState()
      requires Valid()
      modifies records, buffers
      ensures Sized() && State() == old(Machine(State().live, State().saved[currentTty := State().live], currentTty, State().loggedIn))
    {
      var t := currentTty;
      records[t] := Record(console.row, console.column, console.color, currentInode, records[t].loggedIn);
      CopyOut(t);
      assert SavedCells(t) == console.buffer[..];
      assert forall u :: 0 <= u < MAX_TTYS && u != t ==> SavedCells(u) == old(SavedCells(u));
    }

    method CopyOut(t: nat)
      requires Sized() && t < MAX_TTYS
      modifies buffers
      ensures forall y, x :: 0 <= y < SCREEN_HEIGHT && 0 <= x < SCREEN_WIDTH ==> buffers[t, y, x] == console.buffer[y * SCREEN_WIDTH + x]
      ensures forall u, y, x :: 0 <= u < MAX_TTYS && u != t && 0 <= y < SCREEN_HEIGHT && 0 <= x < SCREEN_WIDTH ==>
                                  buffers[u, y, x] == old(buffers[u, y, x])
    {
      for y := 0 to SCREEN_HEIGHT
        invariant forall y', x :: 0 <= y' < y && 0 <= x < SCREEN_WIDTH ==> buffers[t, y', x] == console.buffer[y' * SCREEN_WIDTH + x]
        invariant forall u, y, x :: 0 <= u < MAX_TTYS && u != t && 0 <= y < SCREEN_HEIGHT && 0 <= x < SCREEN_WIDTH ==>
                                      buffers[u, y, x] == old(buffers[u, y, x])
      {
        for x := 0 to SCREEN_WIDTH
          invariant forall y', x' :: 0 <= y' < y && 0 <= x' < SCREEN_WIDTH ==> buffers[t, y', x'] == console.buffer[y' * SCREEN_WIDTH + x']
          invariant forall x' :: 0 <= x' < x ==> buffers[t, y, x'] == console.buffer[y * SCREEN_WIDTH + x']
          invariant forall u, y, x :: 0 <= u < MAX_TTYS && u != t && 0 <= y < SCREEN_HEIGHT && 0 <= x < SCREEN_WIDTH ==>
                                        buffers[u, y, x] == old(buffers[u, y, x])
        {
          buffers[t, y, x] := console.buffer[y * SCREEN_WIDTH + x];
        }
      }
    }

    method RestoreTtyState()
      requires Sized() && currentTty < MAX_TTYS
      modifies `currentInode, console, console.buffer
      ensures Sized() && State() == old(Machine(State().saved[currentTty], State().saved, currentTty, State().loggedIn))
    {
      var t := currentTty;
      console.row, console.column, console.color := records[t].row, records[t].column, records[t].color;
      currentInode := records[t].dir;
      CopyIn(t);
      assert console.buffer[..] == SavedCells(t);
    }

    method CopyIn(t: nat)
      requires Sized() && t < MAX_TTYS
      modifies console.buffer
      ensures forall i :: 0 <= i < CELLS ==> console.buffer[i] == buffers[t, i / SCREEN_WIDTH, i % SCREEN_WIDTH]
    {
      for y := 0 to SCREEN_HEIGHT
        invariant forall i :: 0 <= i < y * SCREEN_WIDTH ==> console.buffer[i] == buffers[t, i / SCREEN_WIDTH, i % SCREEN_WIDTH]
      {
        for x := 0 to SCREEN_WIDTH
          invariant forall i :: 0 <= i < y * SCREEN_WIDTH + x ==> console.buffer[i] == buffers[t, i / SCREEN_WIDTH, i % SCREEN_WIDTH]
        {
          assert (y * SCREEN_WIDTH + x) / SCREEN_WIDTH == y && (y * SCREEN_WIDTH + x) % SCREEN_WIDTH == x;
          console.buffer[y * SCREEN_WIDTH + x] := buffers[t, y, x];
        }
      }
    }

    /** Whether the login screen comes up is returned; what it prints and reads are actions that follow. */
    method SwitchTty(ttyNum: int) returns (loginScreen: bool)
      requires Valid()
      modifies this, console, console.buffer, records, buffers
      ensures Valid() && State() == SwitchTo(old(State()), ttyNum)
      ensures loginScreen <==> 0 <= ttyNum < MAX_TTYS && !old(records[ttyNum].loggedIn)
    {
      if ttyNum < 0 || ttyNum >= MAX_TTYS { return false; }
      SaveTtyState();
      currentTty := ttyNum;
      RestoreTtyState();
      loginScreen := !records[currentTty].loggedIn;
    }

    /** The end of the login screen, and `exit`. */
    method SetLoggedIn(loggedIn: bool)
      requires Valid()
      modifies records
      ensures Valid() && State() == Perform(old(State()), if loggedIn then LogIn else LogOut)
    {
      records[currentTty] := records[currentTty].(loggedIn := loggedIn);
    }

    method TerminalSetColor(fg: nat, bg: nat)
      requires Valid()
      modifies console`color, records
      ensures Valid() && State() == Perform(old(State()), SetColor(fg, bg))
      ensures console.color % 16 == fg % 16 && console.color / 16 == bg % 16
    {
      console.SetColor(fg, bg);
      records[currentTty] := records[currentTty].(color := console.color);
    }

    /** Anything a program or a user does to the terminal on screen, or a switch. */
    method Act(a: Action)
      requires Valid()
      modifies this, console, console.buffer, records, buffers
      ensures Valid() && State() == Perform(old(State()), a)
    {
      match a
      case Print(c) => console.TerminalPutChar(c);
      case SetColor(fg, bg) => TerminalSetColor(fg, bg);
      case Clear => console.Clear();
      case Enter(dir) => currentInode := dir;
      case LogIn => SetLoggedIn(true);
      case LogOut => SetLoggedIn(false);
      case Switch(tty) => var loginScreen := SwitchTty(tty);
    }

    /** Any interleaving, on the one screen and the nine records: what each terminal shows is what it would show alone. */
    method ActAll(acts: seq<Action>)
      requires Valid()
      modifies this, console, console.buffer, records, buffers
      ensures Valid() && State() == PerformAll(old(State()), acts)
      ensures forall i: nat :: i < MAX_TTYS ==>
                View(State(), i) == AloneAll(View(old(State()), i), SentTo(old(State()).current, acts, i))
    {
      ghost var start := State();
      assert acts[..0] == [];
      for k := 0 to |acts|
        invariant Valid() && State() == PerformAll(start, acts[..k])
      {
        assert acts[..k + 1][..k] == acts[..k];
        Act(acts[k]);
      }
      assert acts[..|acts|] == acts;
      forall i: nat | i < MAX_TTYS
        ensures View(State(), i) == AloneAll(View(start, i), SentTo(start.current, acts, i))
      {
        EachRunsAlone(start, acts, i);
      }
    }

    /** In place: text printed on a terminal after a clear is on the screen buffer when switching back to it. */
    method ShowText(before: seq<Action>, tty: nat, text: string, after: seq<Action>)
      requires Valid() && tty < MAX_TTYS && BACKSPACE !in text && Elsewhere(after, tty)
      modifies this, console, console.buffer, records, buffers
      ensures Valid() && currentTty == tty && Chars(console.buffer[..]) == BottomRows(text)
    {
      ghost var start := State();
      ActAll(Visit(before, tty, [Clear] + Prints(text), after));
      TextStays(start, before, tty, text, after);
      var loginScreen := SwitchTty(tty);
    }
  }

  /** A machine switched on and used: nine terminals, each as if it had the machine to itself. */
  method Session(acts: seq<Action>) returns (ttys: VirtualTtys)
    ensures fresh(ttys) && ttys.Valid()
    ensures ttys.State() == PerformAll(PowerOn(), acts)
    ensures forall i: nat :: i < MAX_TTYS ==> View(ttys.State(), i) == AloneAll(View(PowerOn(), i), SentTo(0, acts, i))
  {
    ttys := new VirtualTtys();
    ttys.ActAll(acts);
  }
}
