/**
 * The `FillPasswordInputs` filler strategy: a page script that writes the
 * password into every password input of the document and dispatches the
 * events a page listens for, and the filler's two entry points, which
 * inject that script for a given password or do nothing.
 */
module Fillers {
  import opened Wrappers

  /** The `type` attribute of an input; only `password` matters to the filler. */
  datatype InputType = PasswordType | OtherType(name: string)

  /** An input element of the page: its type and its current `value`. */
  datatype Input = Input(inputType: InputType, value: string)

  datatype EventKind = Change | KeyUp | InputEvent

  /** An event dispatched on the input at position `target` of the document. */
  datatype Dispatched = Dispatched(target: nat, kind: EventKind)

  /** The browser tab the popup is attached to. */
  datatype Tab = Tab(id: Option<int>)

  /**
   * One `browser.tabs.executeScript` call on tab `tabId`, running the page
   * script with `password` as its argument.
   */
  datatype ScriptInjection = ExecuteScript(tabId: Option<int>, password: string)

  const Name: string := "FillPasswordInputs"
  /** The filler has no options of its own: its default options are the empty map. */
  const DefaultOptions: map<string, string> := map[]
  /** The filler has no options panel. */
  const HasOptionsPanel: bool := false

  /** What the page script does to one input: a password input gets the password, any other stays. */
  function FillOne(input: Input, password: string): Input {
    if input.inputType == PasswordType then input.(value := password) else input
  }

  /** The document's inputs after the page script ran. */
  function Filled(inputs: seq<Input>, password: string): seq<Input>
    decreases |inputs|
  {
    if inputs == [] then []
    else Filled(inputs[..|inputs| - 1], password) + [FillOne(inputs[|inputs| - 1], password)]
  }

  /** The number of password inputs. */
  function PasswordCount(inputs: seq<Input>): nat
    decreases |inputs|
  {
    if inputs == [] then 0
    else PasswordCount(inputs[..|inputs| - 1]) + (if inputs[|inputs| - 1].inputType == PasswordType then 1 else 0)
  }

  /** `document.querySelectorAll('input[type="password"]')`: the positions of the password inputs, in document order. */
  function PasswordIndices(inputs: seq<Input>): seq<nat>
    decreases |inputs|
  {
    if inputs == [] then []
    else PasswordIndices(inputs[..|inputs| - 1]) + (if inputs[|inputs| - 1].inputType == PasswordType then [|inputs| - 1] else [])
  }

  /** The events dispatched on one filled input: `change`, `keyup`, then `input` where the browser has it. */
  function EventsForOne(target: nat, inputEventSupported: bool): seq<Dispatched> {
    [Dispatched(target, Change), Dispatched(target, KeyUp)] + (if inputEventSupported then [Dispatched(target, InputEvent)] else [])
  }

  /** The events dispatched on the inputs `targets`, input by input. */
  function EventsFor(targets: seq<nat>, inputEventSupported: bool): seq<Dispatched>
    decreases |targets|
  {
    if targets == [] then []
    else EventsFor(targets[..|targets| - 1], inputEventSupported) + EventsForOne(targets[|targets| - 1], inputEventSupported)
  }

  /**
   * `fillPasswordInputs`: sets the value of every password input to
   * `password`, dispatches its events, and returns how many inputs it filled.
   * `inputEventSupported` stands for `typeof InputEvent === 'function'`.
   */
  method FillPasswordInputs(inputs: array<Input>, password: string, inputEventSupported: bool)
    returns (count: nat, events: seq<Dispatched>)
    modifies inputs
    ensures inputs[..] == Filled(old(inputs[..]), password)
    ensures count == PasswordCount(old(inputs[..]))
    ensures events == EventsFor(PasswordIndices(old(inputs[..])), inputEventSupported)
  {
    ghost var original := inputs[..];
    var targets := PasswordIndices(inputs[..]);
    PasswordIndicesExact(original);
    count, events := 0, [];
    for k := 0 to |targets|
      invariant count == k
      invariant events == EventsFor(targets[..k], inputEventSupported)
      invariant forall j | 0 <= j < inputs.Length ::
        inputs[j] == if j in targets[..k] then FillOne(original[j], password) else original[j]
    {
      var t := targets[k];
      assert t in targets;
      assert targets[..k + 1] == targets[..k] + [t];
      inputs[t] := inputs[t].(value := password);
      events := events + [Dispatched(t, Change)];
      events := events + [Dispatched(t, KeyUp)];
      if inputEventSupported {
        events := events + [Dispatched(t, InputEvent)];
      }
      count := count + 1;
    }
    assert targets[..|targets|] == targets;
    FilledLength(original, password);
    forall j | 0 <= j < inputs.Length
      ensures inputs[..][j] == Filled(original, password)[j]
    {
      FilledAt(original, password, j);
    }
  }

  /**
   * The password inputs' positions are in range, strictly increasing, exactly
   * the password inputs, and as many as `PasswordCount` says.
   */
  lemma {:induction false} PasswordIndicesExact(inputs: seq<Input>)
    ensures |PasswordIndices(inputs)| == PasswordCount(inputs)
    ensures forall j :: j in PasswordIndices(inputs) <==> 0 <= j < |inputs| && inputs[j].inputType == PasswordType
    ensures forall a, b | 0 <= a < b < |PasswordIndices(inputs)| :: PasswordIndices(inputs)[a] < PasswordIndices(inputs)[b]
    decreases |inputs|
  {
    if inputs != [] {
      var init := inputs[..|inputs| - 1];
      PasswordIndicesExact(init);
      var before := PasswordIndices(init);
      forall j | j in before ensures j < |init| && inputs[j] == init[j] { }
      forall a | 0 <= a < |before| ensures before[a] < |init| {
        assert before[a] in before;
      }
    }
  }

  lemma {:induction false} FilledLength(inputs: seq<Input>, password: string)
    ensures |Filled(inputs, password)| == |inputs|
    decreases |inputs|
  {
    if inputs != [] {
      FilledLength(inputs[..|inputs| - 1], password);
    }
  }

  /** Position `j` after filling is position `j` before, filled if and only if it is a password input. */
  lemma {:induction false} FilledAt(inputs: seq<Input>, password: string, j: nat)
    requires j < |inputs|
    ensures |Filled(inputs, password)| == |inputs|
    ensures Filled(inputs, password)[j] == FillOne(inputs[j], password)
    decreases |inputs|
  {
    var n := |inputs| - 1;
    FilledLength(inputs, password);
    FilledLength(inputs[..n], password);
    if j < n {
      FilledAt(inputs[..n], password, j);
    }
  }

  /**
   * After filling, every password input holds the password; every other input
   * is unchanged; no input changes its type.
   */
  lemma FilledInputs(inputs: seq<Input>, password: string)
    ensures |Filled(inputs, password)| == |inputs|
    ensures forall j | 0 <= j < |inputs| :: Filled(inputs, password)[j].inputType == inputs[j].inputType
    ensures forall j | 0 <= j < |inputs| && inputs[j].inputType == PasswordType ::
      Filled(inputs, password)[j].value == password
    ensures forall j | 0 <= j < |inputs| && inputs[j].inputType != PasswordType ::
      Filled(inputs, password)[j] == inputs[j]
  {
    FilledLength(inputs, password);
    forall j | 0 <= j < |inputs| ensures Filled(inputs, password)[j] == FillOne(inputs[j], password) {
      FilledAt(inputs, password, j);
    }
  }

  /** Running the page script twice with the same password leaves the page as running it once. */
  lemma {:induction false} FilledIdempotent(inputs: seq<Input>, password: string)
    ensures Filled(Filled(inputs, password), password) == Filled(inputs, password)
    decreases |inputs|
  {
    if inputs != [] {
      var n := |inputs| - 1;
      FilledIdempotent(inputs[..n], password);
      FilledLength(inputs[..n], password);
      var once := Filled(inputs, password);
      assert once[..n] == Filled(inputs[..n], password);
    }
  }

  /** Each filled input gets two events, three where `input` events exist. */
  lemma {:induction false} EventsForLength(targets: seq<nat>, inputEventSupported: bool)
    ensures |EventsFor(targets, inputEventSupported)| == |targets| * (if inputEventSupported then 3 else 2)
    decreases |targets|
  {
    if targets != [] {
      EventsForLength(targets[..|targets| - 1], inputEventSupported);
    }
  }

  /**
   * The events of the `k`-th filled input form the `k`-th block of the event
   * log: `change`, then `keyup`, then `input` where supported.
   */
  lemma {:induction false} EventsForBlock(targets: seq<nat>, inputEventSupported: bool, k: nat)
    requires k < |targets|
    ensures var w := if inputEventSupported then 3 else 2;
      && (k + 1) * w <= |EventsFor(targets, inputEventSupported)|
      && EventsFor(targets, inputEventSupported)[k * w..(k + 1) * w] == EventsForOne(targets[k], inputEventSupported)
    decreases |targets|
  {
    var w := if inputEventSupported then 3 else 2;
    var n := |targets| - 1;
    var init := targets[..n];
    EventsForLength(init, inputEventSupported);
    EventsForLength(targets, inputEventSupported);
    if k < n {
      EventsForBlock(init, inputEventSupported, k);
      assert (k + 1) * w <= n * w;
    } else {
      assert k * w == |EventsFor(init, inputEventSupported)|;
    }
  }

  /**
   * `fillUsername`: this filler does not fill user names; it resolves at once
   * and injects nothing.
   */
  function FillUsername(): (injections: seq<ScriptInjection>)
    ensures injections == []
  {
    []
  }

  /**
   * `fillPassword`: an absent or empty password resolves at once without
   * injecting anything; any other password is passed, as the one argument of
   * the page script, to a single script injection into the active tab.
   */
  function FillPassword(activeTab: Tab, password: Option<string>): (injections: seq<ScriptInjection>)
    ensures injections == [] <==> (password == None || password == Some(""))
    ensures injections != [] ==> injections == [ExecuteScript(activeTab.id, password.value)]
  {
    match password
    case None => []
    case Some(p) => if p == "" then [] else [ExecuteScript(activeTab.id, p)]
  }

  /** What a page looks like after running an injection's script on it. */
  function AfterInjection(injection: ScriptInjection, page: seq<Input>): seq<Input> {
    Filled(page, injection.password)
  }

  /**
   * A non-empty password given to `fillPassword` ends up in every password
   * input of a page its injection runs on, and nowhere else.
   */
  lemma FillPasswordFillsPage(activeTab: Tab, password: string, page: seq<Input>)
    requires password != ""
    ensures |FillPassword(activeTab, Some(password))| == 1
    ensures var after := AfterInjection(FillPassword(activeTab, Some(password))[0], page);
      && |after| == |page|
      && (forall j | 0 <= j < |page| && page[j].inputType == PasswordType :: after[j].value == password)
      && (forall j | 0 <= j < |page| && page[j].inputType != PasswordType :: after[j] == page[j])
  {
    FilledInputs(page, password);
  }
}
