/**
 * The selection store and the menu actions that drive it (`addTable`,
 * `removeTable` and the options of `userInput`). Each numeric prompt reads
 * from a sequence of inputs; the console output is not modelled.
 */
module Menu {
  import opened Wrappers
  import opened Scrape
  import opened Template
  import opened Output

  /** What one read of `int(input(...))` gives: a number, a ValueError, or a KeyboardInterrupt. */
  datatype Input = Number(n: int) | NotANumber | Interrupt

  /** How a visit to option A ends. */
  datatype AddOutcome =
    | Added(table: string)   // the table was appended to the selection
    | ReturnedToMenu         // the operator chose 0
    | AddInterrupted         // KeyboardInterrupt: the process exits
    | AddInputEnded          // no more input (the tool would wait at the prompt)
    | AtCapacity             // the menu refused: eleven tables are selected

  /** How a visit to option B ends. */
  datatype RemoveOutcome =
    | Removed(position: int) // the entry at this 1-based position was popped
    | RemoveInterrupted
    | RemoveInputEnded
    | NothingSelected        // the menu refused: the selection is empty

  /** A file option D or E writes: its name and the template it holds. */
  datatype OutputFile = OutputFile(name: string, document: Dcr)

  /** `writeDCR(buildDCR(tables), tables)`: the file written for a non-empty list of tables. */
  function TemplateFile(template: Dcr, supported: seq<string>, tables: seq<string>, fetch: string -> Page): (f: OutputFile)
    requires |tables| >= 1
    ensures f.document.rest == template.rest
    ensures Paired(template) ==> Paired(f.document)
  {
    var document := Build(template, supported, tables, fetch);
    assert Paired(template) ==> Paired(document) by {
      if Paired(template) {
        BuildPaired(template, supported, tables, fetch);
      }
    }
    OutputFile(Filename(tables), document)
  }

  /** The files option E writes for `tables`: one single-table file each, in order. */
  function EachFile(template: Dcr, supported: seq<string>, tables: seq<string>, fetch: string -> Page): (files: seq<OutputFile>)
    ensures |files| == |tables|
    decreases |tables|
  {
    if tables == [] then []
    else EachFile(template, supported, tables[..|tables| - 1], fetch) + [TemplateFile(template, supported, [tables[|tables| - 1]], fetch)]
  }

  /** The `k`-th file option E writes is the single-table template of the `k`-th table. */
  lemma {:induction false} EachFileAt(template: Dcr, supported: seq<string>, tables: seq<string>, k: nat, fetch: string -> Page)
    requires k < |tables|
    ensures EachFile(template, supported, tables, fetch)[k] == TemplateFile(template, supported, [tables[k]], fetch)
    decreases |tables|
  {
    if k < |tables| - 1 {
      EachFileAt(template, supported, tables[..|tables| - 1], k, fetch);
      assert tables[..|tables| - 1][k] == tables[k];
    }
  }

  /** Option A is offered while the selection holds fewer tables than this. */
  const AddLimit: nat := 11

  predicate NoDuplicates(s: seq<string>)
  {
    forall i, j :: 0 <= i < j < |s| ==> s[i] != s[j]
  }

  /** What the store keeps: no table twice, only supported tables, at most `AddLimit` of them. */
  predicate Consistent(supported: seq<string>, selected: seq<string>)
  {
    NoDuplicates(selected) && (forall i :: 0 <= i < |selected| ==> selected[i] in supported) && |selected| <= AddLimit
  }

  // ---------------------------------------------------------------------
  // Option A: `addTable`

  /**
   * The add prompt over a run of inputs: the first in-range number whose
   * table is not selected yet adds it, 0 returns, an interrupt exits; any
   * other input (not a number, out of range, already selected) is read past.
   */
  function AddDecision(supported: seq<string>, selected: seq<string>, inputs: seq<Input>): (r: AddOutcome)
    ensures r.Added? ==> r.table in supported && r.table !in selected
    ensures r != AtCapacity
    decreases |inputs|
  {
    if inputs == [] then AddInputEnded
    else match inputs[0]
      case Interrupt => AddInterrupted
      case NotANumber => AddDecision(supported, selected, inputs[1..])
      case Number(n) =>
        if 1 <= n <= |supported| then
          if supported[n - 1] !in selected then Added(supported[n - 1])
          else AddDecision(supported, selected, inputs[1..])
        else if n == 0 then ReturnedToMenu
        else AddDecision(supported, selected, inputs[1..])
  }

  /** An input the add prompt answers with a message and a new prompt. */
  predicate AddIgnores(supported: seq<string>, selected: seq<string>, x: Input)
  {
    match x
    case NotANumber => true
    case Interrupt => false
    case Number(n) => n < 0 || n > |supported| || (1 <= n && supported[n - 1] in selected)
  }

  /** Rejected inputs change nothing: the prompt decides as if they had not been typed. */
  lemma {:induction false} AddSkipsIgnored(supported: seq<string>, selected: seq<string>, ignored: seq<Input>, rest: seq<Input>)
    requires forall k :: 0 <= k < |ignored| ==> AddIgnores(supported, selected, ignored[k])
    ensures AddDecision(supported, selected, ignored + rest) == AddDecision(supported, selected, rest)
    decreases |ignored|
  {
    if ignored == [] {
      assert ignored + rest == rest;
    } else {
      assert (ignored + rest)[0] == ignored[0];
      assert (ignored + rest)[1..] == ignored[1..] + rest;
      AddSkipsIgnored(supported, selected, ignored[1..], rest);
    }
  }

  /** The first answer that is not read past decides: an interrupt exits, 0 returns, and a fresh choice `k` adds the `k`-th supported table. */
  lemma AddAnswers(supported: seq<string>, selected: seq<string>, x: Input, rest: seq<Input>)
    ensures x == Interrupt ==> AddDecision(supported, selected, [x] + rest) == AddInterrupted
    ensures x == Number(0) ==> AddDecision(supported, selected, [x] + rest) == ReturnedToMenu
    ensures x.Number? && 1 <= x.n <= |supported| && supported[x.n - 1] !in selected ==>
              AddDecision(supported, selected, [x] + rest) == Added(supported[x.n - 1])
  {
    assert ([x] + rest)[0] == x;
  }

  /** A table is added only in answer to a choice of its number, every earlier input having been read past. */
  lemma {:induction false} AddedByChoice(supported: seq<string>, selected: seq<string>, inputs: seq<Input>)
    requires AddDecision(supported, selected, inputs).Added?
    ensures exists k :: 0 <= k < |inputs| && inputs[k].Number? && 1 <= inputs[k].n <= |supported| &&
              supported[inputs[k].n - 1] == AddDecision(supported, selected, inputs).table &&
              forall j :: 0 <= j < k ==> AddIgnores(supported, selected, inputs[j])
    decreases |inputs|
  {
    var r := AddDecision(supported, selected, inputs);
    var x := inputs[0];
    if x.Number? && 1 <= x.n <= |supported| && supported[x.n - 1] !in selected {
      assert inputs[0].Number? && 1 <= inputs[0].n <= |supported| && supported[inputs[0].n - 1] == r.table;
    } else {
      assert AddIgnores(supported, selected, x);
      assert r == AddDecision(supported, selected, inputs[1..]);
      AddedByChoice(supported, selected, inputs[1..]);
      var k :| 0 <= k < |inputs[1..]| && inputs[1..][k].Number? && 1 <= inputs[1..][k].n <= |supported| &&
               supported[inputs[1..][k].n - 1] == r.table &&
               forall j :: 0 <= j < k ==> AddIgnores(supported, selected, inputs[1..][j]);
      assert inputs[1..][k] == inputs[k + 1];
      forall j | 0 <= j < k + 1
        ensures AddIgnores(supported, selected, inputs[j])
      {
        if j > 0 {
          assert inputs[j] == inputs[1..][j - 1];
        }
      }
    }
  }

  /** The selection after a visit to option A. */
  function AfterAdd(selected: seq<string>, outcome: AddOutcome): (r: seq<string>)
    ensures |selected| <= |r| <= |selected| + 1 && r[..|selected|] == selected
  {
    if outcome.Added? then selected + [outcome.table] else selected
  }

  /** Option A with its guard: the add prompt only while fewer than `AddLimit` tables are selected. */
  function MenuAddDecision(supported: seq<string>, selected: seq<string>, inputs: seq<Input>): (r: AddOutcome)
    ensures r == AtCapacity <==> |selected| >= AddLimit
  {
    if |selected| < AddLimit then AddDecision(supported, selected, inputs) else AtCapacity
  }

  /** Option A keeps the store consistent: the selection stays free of duplicates, supported, and within the guard. */
  lemma MenuAddConsistent(supported: seq<string>, selected: seq<string>, inputs: seq<Input>)
    requires Consistent(supported, selected)
    ensures Consistent(supported, AfterAdd(selected, MenuAddDecision(supported, selected, inputs)))
  {
    var outcome := MenuAddDecision(supported, selected, inputs);
    if outcome.Added? {
      var r := AfterAdd(selected, outcome);
      forall i, j | 0 <= i < j < |r|
        ensures r[i] != r[j]
      {
        if j == |selected| {
          assert r[i] == selected[i];
        }
      }
    }
  }

  /** The guard admits an eleventh table and refuses a twelfth, although the tool's message speaks of ten. */
  lemma AddLimitIsEleven(supported: seq<string>, selected: seq<string>, k: int, inputs: seq<Input>)
    requires |selected| == 10 && 1 <= k <= |supported| && supported[k - 1] !in selected
    ensures |AfterAdd(selected, MenuAddDecision(supported, selected, [Number(k)] + inputs))| == 11
    ensures MenuAddDecision(supported, selected + [supported[k - 1]], inputs) == AtCapacity
  {
    assert ([Number(k)] + inputs)[0] == Number(k);
  }

  // ---------------------------------------------------------------------
  // Option B: `removeTable`

  /** The remove prompt over a run of inputs: the first in-range number is removed, an interrupt exits, anything else is read past. */
  function RemoveDecision(selected: seq<string>, inputs: seq<Input>): (r: RemoveOutcome)
    ensures r.Removed? ==> 1 <= r.position <= |selected|
    ensures r != NothingSelected
    decreases |inputs|
  {
    if inputs == [] then RemoveInputEnded
    else match inputs[0]
      case Interrupt => RemoveInterrupted
      case NotANumber => RemoveDecision(selected, inputs[1..])
      case Number(n) => if 1 <= n <= |selected| then Removed(n) else RemoveDecision(selected, inputs[1..])
  }

  /** An input the remove prompt answers with a message and a new prompt. */
  predicate RemoveIgnores(selected: seq<string>, x: Input)
  {
    match x
    case NotANumber => true
    case Interrupt => false
    case Number(n) => n < 1 || n > |selected|
  }

  /** Rejected inputs change nothing: the prompt decides as if they had not been typed. */
  lemma {:induction false} RemoveSkipsIgnored(selected: seq<string>, ignored: seq<Input>, rest: seq<Input>)
    requires forall k :: 0 <= k < |ignored| ==> RemoveIgnores(selected, ignored[k])
    ensures RemoveDecision(selected, ignored + rest) == RemoveDecision(selected, rest)
    decreases |ignored|
  {
    if ignored == [] {
      assert ignored + rest == rest;
    } else {
      assert (ignored + rest)[0] == ignored[0];
      assert (ignored + rest)[1..] == ignored[1..] + rest;
      RemoveSkipsIgnored(selected, ignored[1..], rest);
    }
  }

  /** The first answer that is not read past decides: an interrupt exits, and an in-range `k` removes position `k`. */
  lemma RemoveAnswers(selected: seq<string>, x: Input, rest: seq<Input>)
    ensures x == Interrupt ==> RemoveDecision(selected, [x] + rest) == RemoveInterrupted
    ensures x.Number? && 1 <= x.n <= |selected| ==> RemoveDecision(selected, [x] + rest) == Removed(x.n)
  {
    assert ([x] + rest)[0] == x;
  }

  /** A position is removed only in answer to that number, every earlier input having been read past. */
  lemma {:induction false} RemovedByChoice(selected: seq<string>, inputs: seq<Input>)
    requires RemoveDecision(selected, inputs).Removed?
    ensures exists k :: 0 <= k < |inputs| && inputs[k] == Number(RemoveDecision(selected, inputs).position) &&
              forall j :: 0 <= j < k ==> RemoveIgnores(selected, inputs[j])
    decreases |inputs|
  {
    var r := RemoveDecision(selected, inputs);
    var x := inputs[0];
    if x.Number? && 1 <= x.n <= |selected| {
      assert inputs[0] == Number(r.position);
    } else {
      assert RemoveIgnores(selected, x);
      assert r == RemoveDecision(selected, inputs[1..]);
      RemovedByChoice(selected, inputs[1..]);
      var k :| 0 <= k < |inputs[1..]| && inputs[1..][k] == Number(r.position) &&
               forall j :: 0 <= j < k ==> RemoveIgnores(selected, inputs[1..][j]);
      assert inputs[1..][k] == inputs[k + 1];
      forall j | 0 <= j < k + 1
        ensures RemoveIgnores(selected, inputs[j])
      {
        if j > 0 {
          assert inputs[j] == inputs[1..][j - 1];
        }
      }
    }
  }

  /** `list.pop(i)`: later entries move down one place. */
  function RemoveAt(s: seq<string>, i: nat): (r: seq<string>)
    requires i < |s|
    ensures |r| == |s| - 1
    ensures forall j :: 0 <= j < i ==> r[j] == s[j]
    ensures forall j :: i <= j < |r| ==> r[j] == s[j + 1]
  {
    s[..i] + s[i + 1..]
  }

  /** The selection after a visit to option B. */
  function AfterRemove(selected: seq<string>, outcome: RemoveOutcome): (r: seq<string>)
    ensures outcome.Removed? && 1 <= outcome.position <= |selected| ==>
              multiset(r) + multiset{selected[outcome.position - 1]} == multiset(selected)
    ensures !outcome.Removed? ==> r == selected
  {
    if outcome.Removed? && 1 <= outcome.position <= |selected| then
      var i := outcome.position - 1;
      assert selected == selected[..i] + [selected[i]] + selected[i + 1..];
      RemoveAt(selected, i)
    else selected
  }

  /** Option B with its guard: the remove prompt only when something is selected. */
  function MenuRemoveDecision(selected: seq<string>, inputs: seq<Input>): (r: RemoveOutcome)
    ensures r == NothingSelected <==> selected == []
  {
    if selected != [] then RemoveDecision(selected, inputs) else NothingSelected
  }

  /** Removing an entry keeps the store consistent and takes exactly that entry out. */
  lemma RemoveConsistent(supported: seq<string>, selected: seq<string>, i: nat)
    requires Consistent(supported, selected) && i < |selected|
    ensures Consistent(supported, RemoveAt(selected, i))
    ensures selected[i] !in RemoveAt(selected, i)
  {
    var r := RemoveAt(selected, i);
    forall a, b | 0 <= a < b < |r|
      ensures r[a] != r[b]
    {
      var a', b' := if a < i then a else a + 1, if b < i then b else b + 1;
      assert r[a] == selected[a'] && r[b] == selected[b'];
    }
    forall j | 0 <= j < |r|
      ensures r[j] != selected[i]
    {
      var j' := if j < i then j else j + 1;
      assert r[j] == selected[j'];
    }
  }

  /** Option B keeps the store consistent. */
  lemma MenuRemoveConsistent(supported: seq<string>, selected: seq<string>, inputs: seq<Input>)
    requires Consistent(supported, selected)
    ensures Consistent(supported, AfterRemove(selected, MenuRemoveDecision(selected, inputs)))
  {
    var outcome := MenuRemoveDecision(selected, inputs);
    if outcome.Removed? {
      RemoveConsistent(supported, selected, outcome.position - 1);
    }
  }

  // ---------------------------------------------------------------------
  // The session

  /**
   * The tool's process-wide state: the supported tables and the template
   * skeleton, both fixed at start-up, and the selection the menu builds up.
   */
  class Session {
    const supported: seq<string>
    const template: Dcr
    var selected: seq<string>

    ghost predicate Valid()
      reads this
    {
      Consistent(supported, selected)
    }

    constructor (supported: seq<string>, template: Dcr)
      ensures Valid()
      ensures this.supported == supported && this.template == template && selected == []
    {
      this.supported := supported;
      this.template := template;
      selected := [];
    }

    /** `addTable`: prompt until a table is added, 0 is chosen, or the operator interrupts. */
    method AddTable(inputs: seq<Input>) returns (outcome: AddOutcome)
      modifies this
      ensures outcome == AddDecision(supported, old(selected), inputs)
      ensures selected == AfterAdd(old(selected), outcome)
      ensures old(Valid()) && |old(selected)| < AddLimit ==> Valid()
    {
      if Valid() && |selected| < AddLimit {
        MenuAddConsistent(supported, selected, inputs);
      }
      var i := 0;
      while i < |inputs|
        invariant 0 <= i <= |inputs|
        invariant selected == old(selected)
        invariant AddDecision(supported, selected, inputs[i..]) == AddDecision(supported, selected, inputs)
      {
        assert inputs[i..][0] == inputs[i] && inputs[i..][1..] == inputs[i + 1..];
        match inputs[i] {
          case Interrupt =>
            return AddInterrupted;
          case NotANumber =>
            // "Invalid input. Enter a number."
          case Number(userInput) =>
            if 1 <= userInput <= |supported| {
              if supported[userInput - 1] !in selected {
                var table := supported[userInput - 1];
                selected := selected + [table];
                return Added(table);
              }
              // "Selection already chosen"
            } else if userInput == 0 {
              return ReturnedToMenu;
            }
            // otherwise "Invalid choice"
        }
        i := i + 1;
      }
      return AddInputEnded;
    }

    /** `removeTable`: prompt until an in-range position is given, then pop that entry. */
    method RemoveTable(inputs: seq<Input>) returns (outcome: RemoveOutcome)
      requires Valid()
      modifies this
      ensures Valid()
      ensures outcome == RemoveDecision(old(selected), inputs)
      ensures selected == AfterRemove(old(selected), outcome)
    {
      var i := 0;
      while i < |inputs|
        invariant 0 <= i <= |inputs|
        invariant selected == old(selected)
        invariant RemoveDecision(selected, inputs[i..]) == RemoveDecision(selected, inputs)
      {
        assert inputs[i..][0] == inputs[i] && inputs[i..][1..] == inputs[i + 1..];
        match inputs[i] {
          case Interrupt =>
            return RemoveInterrupted;
          case NotANumber =>
            // "Invalid input. Enter a number."
          case Number(userInput) =>
            if 1 <= userInput <= |selected| {
              RemoveConsistent(supported, selected, userInput - 1);
              selected := selected[..userInput - 1] + selected[userInput..];
              return Removed(userInput);
            }
            // otherwise "Invalid choice"
        }
        i := i + 1;
      }
      return RemoveInputEnded;
    }

    /** Menu option A. */
    method MenuAdd(inputs: seq<Input>) returns (outcome: AddOutcome)
      requires Valid()
      modifies this
      ensures Valid()
      ensures outcome == MenuAddDecision(supported, old(selected), inputs)
      ensures selected == AfterAdd(old(selected), outcome)
    {
      MenuAddConsistent(supported, selected, inputs);
      if |selected| < AddLimit {
        outcome := AddTable(inputs);
      } else {
        // "Max (10) amount of tables selected"
        outcome := AtCapacity;
      }
    }

    /** Menu option B. */
    method MenuRemove(inputs: seq<Input>) returns (outcome: RemoveOutcome)
      requires Valid()
      modifies this
      ensures Valid()
      ensures outcome == MenuRemoveDecision(old(selected), inputs)
      ensures selected == AfterRemove(old(selected), outcome)
    {
      MenuRemoveConsistent(supported, selected, inputs);
      if selected != [] {
        outcome := RemoveTable(inputs);
      } else {
        // "No tables have been added"
        outcome := NothingSelected;
      }
    }

    /** Menu option D: one template for the whole selection, or nothing when the selection is empty. */
    method CreateTemplate(fetch: string -> Page) returns (file: Option<OutputFile>)
      ensures selected == [] ==> file == None
      ensures selected != [] ==> file == Some(TemplateFile(template, supported, selected, fetch))
    {
      if selected != [] {
        var dcr := BuildDcr(template, supported, selected, fetch);
        file := Some(OutputFile(Filename(selected), dcr));
      } else {
        // "No tables selected!"
        file := None;
      }
    }

    /**
     * Menu option E: one template per supported table, in the order of the
     * supported list, regardless of the selection. On a cleared skeleton each
     * holds exactly one stream declaration and one flow.
     */
    method CreateEach(fetch: string -> Page) returns (files: seq<OutputFile>)
      ensures |files| == |supported|
      ensures forall i :: 0 <= i < |supported| ==> files[i] == TemplateFile(template, supported, [supported[i]], fetch)
      ensures Cleared(template) ==> forall i :: 0 <= i < |files| ==> SingleTable(files[i].document)
    {
      files := [];
      for i := 0 to |supported|
        invariant files == EachFile(template, supported, supported[..i], fetch)
      {
        var table := supported[i];
        var dcr := BuildDcr(template, supported, [table], fetch);
        assert supported[..i + 1][..i] == supported[..i];
        files := files + [OutputFile(Filename([table]), dcr)];
      }
      assert supported[..|supported|] == supported;
      forall i | 0 <= i < |supported|
        ensures files[i] == TemplateFile(template, supported, [supported[i]], fetch)
      {
        EachFileAt(template, supported, supported, i, fetch);
      }
      if Cleared(template) {
        forall i | 0 <= i < |files|
          ensures SingleTable(files[i].document)
        {
          SingleTableCounts(template, supported, i, fetch);
        }
      }
    }
  }
}
