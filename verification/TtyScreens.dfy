/** What the nine terminals show, said of the actions themselves: text, colours, directories and logins. */
module TtyScreens {
  import opened Limits
  import opened ScreenModel
  import opened TextLayout
  import opened TtyModel

  function Prints(text: string): (r: seq<Action>)
    ensures |r| == |text| && forall i :: 0 <= i < |text| ==> r[i] == Print(text[i])
  {
    seq(|text|, i requires 0 <= i < |text| => Print(text[i]))
  }

  // ---------- actions in a row ----------

  lemma {:induction false} AloneConcat(v: Vt, a: seq<Action>, b: seq<Action>)
    requires ValidVt(v)
    ensures AloneAll(v, a + b) == AloneAll(AloneAll(v, a), b)
    decreases |b|
  {
    if b == [] {
      assert a + b == a;
    } else {
      assert (a + b)[..|a + b| - 1] == a + b[..|b| - 1];
      AloneConcat(v, a, b[..|b| - 1]);
    }
  }

  lemma {:induction false} SentConcat(first: nat, a: seq<Action>, b: seq<Action>, i: nat)
    ensures OnScreen(first, a + b) == OnScreen(OnScreen(first, a), b)
    ensures SentTo(first, a + b, i) == SentTo(first, a, i) + SentTo(OnScreen(first, a), b, i)
    decreases |b|
  {
    if b == [] {
      assert a + b == a;
    } else {
      assert (a + b)[..|a + b| - 1] == a + b[..|b| - 1];
      SentConcat(first, a, b[..|b| - 1], i);
    }
  }

  lemma {:induction false} PerformConcat(m: Machine, a: seq<Action>, b: seq<Action>)
    requires ValidMachine(m)
    ensures PerformAll(m, a + b) == PerformAll(PerformAll(m, a), b)
    decreases |b|
  {
    if b == [] {
      assert a + b == a;
    } else {
      assert (a + b)[..|a + b| - 1] == a + b[..|b| - 1];
      PerformConcat(m, a, b[..|b| - 1]);
    }
  }

  ghost predicate NoSwitch(acts: seq<Action>) {
    forall k :: 0 <= k < |acts| ==> !acts[k].Switch?
  }

  /** Another terminal comes on screen at once, and this one does not come back. */
  ghost predicate Elsewhere(acts: seq<Action>, i: nat) {
    acts != [] ==>
      && acts[0].Switch? && 0 <= acts[0].tty < MAX_TTYS
      && forall k :: 0 <= k < |acts| ==> acts[k] != Switch(i)
  }

  lemma {:induction false} AllSentTo(acts: seq<Action>, i: nat)
    requires NoSwitch(acts)
    ensures SentTo(i, acts, i) == acts && OnScreen(i, acts) == i
    decreases |acts|
  {
    if acts != [] {
      AllSentTo(acts[..|acts| - 1], i);
    }
  }

  lemma {:induction false} NoneSentTo(first: nat, acts: seq<Action>, i: nat)
    requires Elsewhere(acts, i)
    ensures SentTo(first, acts, i) == [] && (acts != [] ==> OnScreen(first, acts) != i)
    decreases |acts|
  {
    if |acts| == 1 {
      assert acts[..0] == [];
    } else if acts != [] {
      assert acts[..|acts| - 1][0] == acts[0];
      NoneSentTo(first, acts[..|acts| - 1], i);
    }
  }

  /** `Switch(i)`, some actions there, and then whatever happens elsewhere. */
  function Visit(before: seq<Action>, i: nat, there: seq<Action>, after: seq<Action>): seq<Action> {
    before + ([Switch(i)] + there) + after
  }

  /** Terminal `i` is then as it was before the visit, changed by the visit's actions alone. */
  lemma VisitViews(m: Machine, before: seq<Action>, i: nat, there: seq<Action>, after: seq<Action>)
    requires ValidMachine(m) && i < MAX_TTYS && NoSwitch(there) && Elsewhere(after, i)
    ensures View(PerformAll(m, Visit(before, i, there, after)), i) == AloneAll(View(PerformAll(m, before), i), there)
    ensures PerformAll(m, Visit(before, i, there, after)).loggedIn[i] == FlagAll(PerformAll(m, before).loggedIn[i], there)
  {
    var start, visit := PerformAll(m, before), [Switch(i)] + there;
    PerformConcat(m, before, visit);
    PerformConcat(m, before + visit, after);
    PerformConcat(start, visit, after);
    EachRunsAlone(start, visit + after, i);
    SentConcat(start.current, visit, after, i);
    VisitSent(start.current, i, there);
    NoneSentTo(OnScreen(start.current, visit), after, i);
    assert there + [] == there;
  }

  lemma VisitSent(first: nat, i: nat, there: seq<Action>)
    requires i < MAX_TTYS && NoSwitch(there)
    ensures SentTo(first, [Switch(i)] + there, i) == there
  {
    SentConcat(first, [Switch(i)], there, i);
    assert [Switch(i)][..0] == [];
    AllSentTo(there, i);
    assert [] + there == there;
  }

  // ---------- text ----------

  lemma {:induction false} PrintsShow(v: Vt, text: string)
    requires ValidVt(v)
    ensures AloneAll(v, Prints(text)) == Vt(ShowAll(v.screen, Text(text)), v.dir)
    decreases |text|
  {
    if text != "" {
      var front := text[..|text| - 1];
      assert Prints(text)[..|text| - 1] == Prints(front) && Text(text)[..|text| - 1] == Text(front);
      PrintsShow(v, front);
    }
  }

  lemma ClearAndPrint(v: Vt, text: string)
    requires ValidVt(v) && BACKSPACE !in text
    ensures Chars(AloneAll(v, [Clear] + Prints(text)).screen.cells) == BottomRows(text)
  {
    AloneConcat(v, [Clear], Prints(text));
    assert [Clear][..0] == [];
    PrintsShow(AloneAll(v, [Clear]), text);
    ScreenShowsLayout(AloneAll(v, [Clear]).screen, text);
  }

  /** Text printed on terminal `i` after a clear is on it when it is looked at again, whatever went on before and elsewhere. */
  lemma TextStays(m: Machine, before: seq<Action>, i: nat, text: string, after: seq<Action>)
    requires ValidMachine(m) && i < MAX_TTYS && BACKSPACE !in text && Elsewhere(after, i)
    ensures var run := PerformAll(m, Visit(before, i, [Clear] + Prints(text), after));
            && Chars(View(run, i).screen.cells) == BottomRows(text)
            && Chars(SwitchTo(run, i).live.screen.cells) == BottomRows(text)
  {
    VisitViews(m, before, i, [Clear] + Prints(text), after);
    ClearAndPrint(View(PerformAll(m, before), i), text);
  }

  /** After power-on all nine terminals are blank, in the root directory, and nobody is logged in. */
  lemma PowerOnIsBlank(i: nat)
    requires i < MAX_TTYS
    ensures var v := View(PowerOn(), i);
            && BlankScreen(v.screen) && v.dir == 1 && !PowerOn().loggedIn[i]
            && v.screen.color == 15 && PowerOn().current == 0
  {
  }

  /** So text that is all that was sent to a terminal is on it, and text sent after the last clear is. */
  lemma SentText(acts: seq<Action>, i: nat, before: seq<Action>, text: string)
    requires i < MAX_TTYS && BACKSPACE !in text && SentTo(0, acts, i) == before + Prints(text)
    requires before == [] || before[|before| - 1] == Clear
    ensures Chars(View(PerformAll(PowerOn(), acts), i).screen.cells) == BottomRows(text)
  {
    var v := View(PowerOn(), i);
    PowerOnIsBlank(i);
    EachRunsAlone(PowerOn(), acts, i);
    AloneConcat(v, before, Prints(text));
    PrintsShow(AloneAll(v, before), text);
    ScreenShowsLayout(AloneAll(v, before).screen, text);
  }

  // ---------- colours, directories, logins ----------

  /** A colour that is set on terminal `i` is that of what is printed there next, whatever else goes on elsewhere. */
  lemma ColorStays(m: Machine, before: seq<Action>, i: nat, fg: nat, bg: nat, after: seq<Action>, c: char)
    requires ValidMachine(m) && i < MAX_TTYS && Elsewhere(after, i) && c != '\n' && c != BACKSPACE
    ensures var v := View(PerformAll(m, Visit(before, i, [SetColor(fg, bg)], after)), i);
            var at := if Offset(v.screen) == CELLS - 1 then CELLS - 1 - SCREEN_WIDTH else Offset(v.screen);
            var cell := PutChar(v.screen, c).cells[at];
            cell.ch == c && cell.color % 16 == fg % 16 && cell.color / 16 == bg % 16
  {
    VisitViews(m, before, i, [SetColor(fg, bg)], after);
    assert [SetColor(fg, bg)][..0] == [];
    PrintedInColor(View(PerformAll(m, before), i).screen, fg, bg, c);
  }

  /** The directory of a terminal is the last one entered there. */
  lemma {:induction false} DirIsLast(v: Vt, sent: seq<Action>, k: nat)
    requires ValidVt(v) && k < |sent| && sent[k].Enter?
    requires forall j :: k < j < |sent| ==> !sent[j].Enter?
    ensures AloneAll(v, sent).dir == sent[k].dir
    decreases |sent|
  {
    if k < |sent| - 1 {
      DirIsLast(v, sent[..|sent| - 1], k);
    }
  }

  lemma {:induction false} DirIsKept(v: Vt, sent: seq<Action>)
    requires ValidVt(v) && forall j :: 0 <= j < |sent| ==> !sent[j].Enter?
    ensures AloneAll(v, sent).dir == v.dir
    decreases |sent|
  {
    if sent != [] {
      DirIsKept(v, sent[..|sent| - 1]);
    }
  }

  /** Whether someone is logged in is decided by the last login or logout there. */
  lemma {:induction false} FlagIsLast(flag: bool, sent: seq<Action>, k: nat)
    requires k < |sent| && (sent[k].LogIn? || sent[k].LogOut?)
    requires forall j :: k < j < |sent| ==> !sent[j].LogIn? && !sent[j].LogOut?
    ensures FlagAll(flag, sent) == sent[k].LogIn?
    decreases |sent|
  {
    if k < |sent| - 1 {
      FlagIsLast(flag, sent[..|sent| - 1], k);
    }
  }

  lemma {:induction false} FlagIsKept(flag: bool, sent: seq<Action>)
    requires forall j :: 0 <= j < |sent| ==> !sent[j].LogIn? && !sent[j].LogOut?
    ensures FlagAll(flag, sent) == flag
    decreases |sent|
  {
    if sent != [] {
      FlagIsKept(flag, sent[..|sent| - 1]);
    }
  }

  /** From power-on: a terminal is in the last directory entered there, or in the root. */
  lemma DirAfter(acts: seq<Action>, i: nat, k: nat)
    requires i < MAX_TTYS
    ensures var sent, dir := SentTo(0, acts, i), View(PerformAll(PowerOn(), acts), i).dir;
            && (k < |sent| && sent[k].Enter? && (forall j :: k < j < |sent| ==> !sent[j].Enter?) ==> dir == sent[k].dir)
            && ((forall j :: 0 <= j < |sent| ==> !sent[j].Enter?) ==> dir == 1)
  {
    var v, sent := View(PowerOn(), i), SentTo(0, acts, i);
    EachRunsAlone(PowerOn(), acts, i);
    PowerOnIsBlank(i);
    if k < |sent| && sent[k].Enter? && forall j :: k < j < |sent| ==> !sent[j].Enter? {
      DirIsLast(v, sent, k);
    }
    if forall j :: 0 <= j < |sent| ==> !sent[j].Enter? {
      DirIsKept(v, sent);
    }
  }

  ghost predicate SetsFlag(a: Action) { a.LogIn? || a.LogOut? }

  /** From power-on: someone is logged in if the last login or logout there was a login. */
  lemma LoginAfter(acts: seq<Action>, i: nat, k: nat)
    requires i < MAX_TTYS
    ensures var sent, flag := SentTo(0, acts, i), PerformAll(PowerOn(), acts).loggedIn[i];
            && (k < |sent| && SetsFlag(sent[k]) && (forall j :: k < j < |sent| ==> !SetsFlag(sent[j])) ==> flag == sent[k].LogIn?)
            && ((forall j :: 0 <= j < |sent| ==> !SetsFlag(sent[j])) ==> !flag)
  {
    var sent := SentTo(0, acts, i);
    EachRunsAlone(PowerOn(), acts, i);
    if k < |sent| && SetsFlag(sent[k]) && forall j :: k < j < |sent| ==> !SetsFlag(sent[j]) {
      FlagIsLast(false, sent, k);
    }
    if forall j :: 0 <= j < |sent| ==> !SetsFlag(sent[j]) {
      FlagIsKept(false, sent);
    }
  }

  /** The same of a visit: directory entered and login given there stay while other terminals are used. */
  lemma VisitStays(m: Machine, before: seq<Action>, i: nat, dir: nat, after: seq<Action>)
    requires ValidMachine(m) && i < MAX_TTYS && Elsewhere(after, i)
    ensures View(PerformAll(m, Visit(before, i, [Enter(dir)], after)), i).dir == dir
    ensures PerformAll(m, Visit(before, i, [LogIn], after)).loggedIn[i]
    ensures !PerformAll(m, Visit(before, i, [LogOut], after)).loggedIn[i]
  {
    VisitViews(m, before, i, [Enter(dir)], after);
    VisitViews(m, before, i, [LogIn], after);
    VisitViews(m, before, i, [LogOut], after);
    assert [Enter(dir)][..0] == [] && [LogIn][..0] == [] && [LogOut][..0] == [];
  }

  // ---------- which terminal is on screen ----------

  ghost predicate Switches(a: Action) { a.Switch? && 0 <= a.tty < MAX_TTYS }

  /** The terminal on screen is that of the last switch to one of the nine, or still the first. */
  lemma {:induction false} LastSwitch(m: Machine, acts: seq<Action>, k: nat)
    requires ValidMachine(m)
    ensures k < |acts| && Switches(acts[k]) && (forall j :: k < j < |acts| ==> !Switches(acts[j])) ==>
              PerformAll(m, acts).current == acts[k].tty
    ensures (forall j :: 0 <= j < |acts| ==> !Switches(acts[j])) ==> PerformAll(m, acts).current == m.current
    decreases |acts|
  {
    if acts != [] {
      LastSwitch(m, acts[..|acts| - 1], k);
    }
  }
}
