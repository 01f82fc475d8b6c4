/**
 * The QRCode extension: its fixed identity (name, actions, default options and
 * its one route), the label lookup and action dispatch behind the popup's
 * entry list, the enumeration of entries to list, and the three edits its
 * options panel makes to the options record.
 */
module QRCodeExtension {
  import opened Wrappers
  import opened Routing
  import Popup

  /** Error correction level of the rendered code. */
  datatype Level = L | M | Q | H

  /** The extension's options record. */
  datatype Options = Options(bgColor: string, fgColor: string, level: Level)

  const Name: string := "QRCode"
  const Actions: seq<string> := ["show"]
  const DefaultOptions: Options := Options("#FFFFFF", "#000000", Q)
  const ShowPath: string := "/extension/QRCode/Show"
  /** The extension's route table: the `Show` view at `ShowPath`. */
  const Routes: seq<Route> := [Route(Some(ShowPath), "Show")]
  /** The i18n key of the label for the `show` action. */
  const ShowLabel: string := "extension_qrcode_action_show"

  /** The argument of one `registerEntryCallback` call. */
  datatype EntryRegistration = EntryRegistration(entryLabel: string, actions: seq<string>)

  /** The state handed to the `Show` view. */
  datatype ShowState = ShowState(entry: string, options: Options)

  /** One `navigateTo(path, state)` call. */
  datatype Navigation = Navigation(path: string, state: ShowState)

  /** One `console.error` diagnostic. */
  datatype Diagnostic = UnknownAction(action: string)

  /**
   * `initializeList`: one `registerEntryCallback` call per label that the
   * password store lists (`labels`), in list order, each with the extension's
   * actions. The calls are returned in the order they are made.
   */
  method InitializeList(labels: seq<string>) returns (registered: seq<EntryRegistration>)
    ensures |registered| == |labels|
    ensures forall k | 0 <= k < |labels| :: registered[k] == EntryRegistration(labels[k], Actions)
  {
    registered := [];
    for k := 0 to |labels|
      invariant |registered| == k
      invariant forall m | 0 <= m < k :: registered[m] == EntryRegistration(labels[m], Actions)
    {
      registered := registered + [EntryRegistration(labels[k], Actions)];
    }
  }

  /**
   * `getLabelForAction`: total; the declared action gets its label key and
   * every other string the empty label.
   */
  function GetLabelForAction(action: string): (labelKey: string)
    ensures labelKey != "" <==> action in Actions
    ensures action in Actions ==> labelKey == ShowLabel
  {
    match action
    case "show" => ShowLabel
    case _ => ""
  }

  /**
   * `executeAction`: for `show`, exactly one navigation to the `Show` route
   * carrying the entry and the extension's current `options`; for anything
   * else no navigation, only a logged diagnostic. Returns the `navigateTo`
   * calls and the diagnostics, in order.
   */
  method ExecuteAction(action: string, entry: string, options: Options)
    returns (navigations: seq<Navigation>, diagnostics: seq<Diagnostic>)
    ensures action in Actions ==>
      navigations == [Navigation(ShowPath, ShowState(entry, options))] && diagnostics == []
    ensures action !in Actions ==> navigations == [] && diagnostics == [UnknownAction(action)]
    ensures forall n | n in navigations :: Route(Some(n.path), "Show") in Routes
  {
    navigations, diagnostics := [], [];
    match action
    case "show" =>
      navigations := navigations + [Navigation(ShowPath, ShowState(entry, options))];
    case _ =>
      diagnostics := diagnostics + [UnknownAction(action)];
  }

  /** The radio group's edit: the chosen level replaces `level`; both colours stay. */
  function OnLevelChange(options: Options, value: Level): (updated: Options)
    ensures updated.level == value
    ensures updated.bgColor == options.bgColor && updated.fgColor == options.fgColor
  {
    options.(level := value)
  }

  /** The background colour input's edit: replaces `bgColor` only. */
  function OnBgColorChange(options: Options, value: string): (updated: Options)
    ensures updated.bgColor == value
    ensures updated.fgColor == options.fgColor && updated.level == options.level
  {
    options.(bgColor := value)
  }

  /** The foreground colour input's edit: replaces `fgColor` only. */
  function OnFgColorChange(options: Options, value: string): (updated: Options)
    ensures updated.fgColor == value
    ensures updated.bgColor == options.bgColor && updated.level == options.level
  {
    options.(fgColor := value)
  }

  /** Edits of different fields commute, and a later edit of the same field overrides an earlier one. */
  lemma PanelEditsCommute(options: Options, level: Level, level2: Level, bg: string, bg2: string, fg: string, fg2: string)
    ensures OnBgColorChange(OnLevelChange(options, level), bg) == OnLevelChange(OnBgColorChange(options, bg), level)
    ensures OnFgColorChange(OnLevelChange(options, level), fg) == OnLevelChange(OnFgColorChange(options, fg), level)
    ensures OnFgColorChange(OnBgColorChange(options, bg), fg) == OnBgColorChange(OnFgColorChange(options, fg), bg)
    ensures OnLevelChange(OnLevelChange(options, level), level2) == OnLevelChange(options, level2)
    ensures OnBgColorChange(OnBgColorChange(options, bg), bg2) == OnBgColorChange(options, bg2)
    ensures OnFgColorChange(OnFgColorChange(options, fg), fg2) == OnFgColorChange(options, fg2)
  {
  }

  /** Re-entering a field's current value changes nothing. */
  lemma PanelEditOfCurrentValue(options: Options)
    ensures OnLevelChange(options, options.level) == options
    ensures OnBgColorChange(options, options.bgColor) == options
    ensures OnFgColorChange(options, options.fgColor) == options
  {
  }

  /** Every action offered with a listed entry has a label, so the entry list shows a label for it. */
  lemma OfferedActionsHaveLabels(labels: seq<string>, registered: seq<EntryRegistration>)
    requires |registered| == |labels|
    requires forall k | 0 <= k < |labels| :: registered[k] == EntryRegistration(labels[k], Actions)
    ensures forall r, a | r in registered && a in r.actions :: GetLabelForAction(a) == ShowLabel
  {
  }

  /** The extension's route table obeys the popup's namespace rule, so gathering it does not throw. */
  lemma RoutesInNamespace()
    ensures Popup.AllInNamespace([Popup.Extension(Name, Routes)])
    ensures Popup.Concat([Popup.Extension(Name, Routes)]) == Routes
  {
    assert Popup.InNamespace(Name, Routes[0]);
    assert [Popup.Extension(Name, Routes)][..0] == [];
  }
}
