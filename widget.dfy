/** The callbacks of `HomeWidgetProvider` with the Android objects replaced by
    plain state: the snapshot store the host application writes is a map from
    key to `Int`, a `RemoteViews` is an object holding the text and the click
    intent set per view, and what the platform is asked to do (push a view to
    a widget instance, start an activity) is appended to an event log. */
module HomeWidget {
  import opened Text
  import opened Decimal
  import opened Currency

  const INCOME_KEY: string := "today_income"
  const EXPENSE_KEY: string := "today_expense"
  const BALANCE_KEY: string := "current_balance"
  const ACTION_CLICK: string := "com.example.cash_inout_app.ACTION_CLICK"
  const WIDGET_CLICK_URI: string := "custom://widget_click"

  /** The views of the widget layout this code writes to. */
  datatype ViewId = WidgetBalance | WidgetRoot

  /** A broadcast pending intent addressed back to this provider. */
  datatype ClickIntent = Broadcast(requestCode: int, action: string, data: string)

  /** The one click intent the widget installs: request code 0, `ACTION_CLICK`. */
  const WidgetClick: ClickIntent := Broadcast(0, ACTION_CLICK, WIDGET_CLICK_URI)

  /** What a `RemoteViews` carries to the widget host. */
  datatype ViewState = ViewState(texts: map<ViewId, string>, clicks: map<ViewId, ClickIntent>)

  datatype LaunchFlag = NewTask

  /** What the provider asks of the platform. */
  datatype Event =
    | WidgetUpdated(widgetId: Int32, views: ViewState)
    | ActivityStarted(packageName: string, flags: set<LaunchFlag>)

  datatype Option<T> = None | Some(value: T)

  /** The definition of `SharedPreferences.getInt(key, default)`: the stored
      value, or the default for an absent key. */
  function GetInt(store: map<string, Int32>, key: string, default: Int32): (v: Int32)
    ensures key in store ==> v == store[key]
    ensures key !in store ==> v == default
  {
    if key in store then store[key] else default
  }

  /** The view state `updateAppWidget` pushes for a given snapshot: the
      formatted balance in the balance text view and the widget click intent
      on the root view, nothing else. */
  function RenderedViews(store: map<string, Int32>): (v: ViewState)
    ensures v.texts.Keys == {WidgetBalance}
    ensures v.clicks == map[WidgetRoot := WidgetClick]
    ensures |PREFIX| <= |v.texts[WidgetBalance]| && v.texts[WidgetBalance][..|PREFIX|] == PREFIX
  {
    ViewState(map[WidgetBalance := FormatCurrency(GetInt(store, BALANCE_KEY, 0))],
              map[WidgetRoot := WidgetClick])
  }

  /** The platform as the provider sees it: the package name, the snapshot
      store the host application wrote, whether a launch intent resolves for
      the package, and the log of requests made so far. */
  class Device {
    const packageName: string
    const launchable: bool
    var store: map<string, Int32>
    var log: seq<Event>

    constructor (packageName: string, launchable: bool, store: map<string, Int32>)
      ensures this.packageName == packageName && this.launchable == launchable
      ensures this.store == store && log == []
    {
      this.packageName := packageName;
      this.launchable := launchable;
      this.store := store;
      log := [];
    }
  }

  /** A `RemoteViews`: the texts and click intents set on the views so far. */
  class RemoteViews {
    var texts: map<ViewId, string>
    var clicks: map<ViewId, ClickIntent>

    constructor ()
      ensures texts == map[] && clicks == map[]
    {
      texts := map[];
      clicks := map[];
    }

    function State(): ViewState
      reads this
    {
      ViewState(texts, clicks)
    }

    method SetTextViewText(id: ViewId, text: string)
      modifies this
      ensures texts == old(texts)[id := text] && clicks == old(clicks)
    {
      texts := texts[id := text];
    }

    method SetOnClickPendingIntent(id: ViewId, intent: ClickIntent)
      modifies this
      ensures clicks == old(clicks)[id := intent] && texts == old(texts)
    {
      clicks := clicks[id := intent];
    }
  }

  /** `onUpdate`: one update per id, in order, with the same rendering for
      each; the snapshot store is left as it was. */
  method OnUpdate(device: Device, appWidgetIds: seq<Int32>)
    modifies device
    ensures device.store == old(device.store)
    ensures |device.log| == |old(device.log)| + |appWidgetIds|
    ensures device.log[..|old(device.log)|] == old(device.log)
    ensures forall i :: 0 <= i < |appWidgetIds| ==>
      device.log[|old(device.log)| + i] == WidgetUpdated(appWidgetIds[i], RenderedViews(device.store))
  {
    ghost var views := RenderedViews(device.store);
    ghost var start := device.log;
    var i := 0;
    while i < |appWidgetIds|
      invariant 0 <= i <= |appWidgetIds|
      invariant device.store == old(device.store)
      invariant |device.log| == |start| + i
      invariant device.log[..|start|] == start
      invariant forall k :: 0 <= k < i ==>
        device.log[|start| + k] == WidgetUpdated(appWidgetIds[k], views)
    {
      UpdateAppWidget(device, appWidgetIds[i]);
      i := i + 1;
    }
  }

  /** `updateAppWidget`: read the three values with 0 as the default, format
      all three, write only the balance, install the click intent on the root
      view and push the views for this id. */
  method UpdateAppWidget(device: Device, appWidgetId: Int32)
    modifies device
    ensures device.store == old(device.store)
    ensures device.log == old(device.log) + [WidgetUpdated(appWidgetId, RenderedViews(device.store))]
  {
    var views := new RemoteViews();
    var income := GetInt(device.store, INCOME_KEY, 0);
    var expense := GetInt(device.store, EXPENSE_KEY, 0);
    var balance := GetInt(device.store, BALANCE_KEY, 0);
    var formattedIncome := FormatCurrency(income);
    var formattedExpense := FormatCurrency(expense);
    var formattedBalance := FormatCurrency(balance);
    views.SetTextViewText(WidgetBalance, formattedBalance);
    SetupWidgetClickListener(views);
    assert views.texts == map[WidgetBalance := formattedBalance];
    assert views.clicks == map[WidgetRoot := WidgetClick];
    device.log := device.log + [WidgetUpdated(appWidgetId, views.State())];
  }

  /** `setupWidgetClickListener`: the whole widget broadcasts `ACTION_CLICK`. */
  method SetupWidgetClickListener(views: RemoteViews)
    modifies views
    ensures views.clicks == old(views.clicks)[WidgetRoot := WidgetClick]
    ensures views.texts == old(views.texts)
  {
    views.SetOnClickPendingIntent(WidgetRoot, WidgetClick);
  }

  /** `onReceive`: on `ACTION_CLICK` the app is started once, in a new task,
      if a launch intent resolves; any other action (or none) has no custom
      effect. The platform's own `super.onReceive` is not part of this model. */
  method OnReceive(device: Device, action: Option<string>)
    modifies device
    ensures device.store == old(device.store)
    ensures action == Some(ACTION_CLICK) && device.launchable ==>
      device.log == old(device.log) + [ActivityStarted(device.packageName, {NewTask})]
    ensures !(action == Some(ACTION_CLICK) && device.launchable) ==>
      device.log == old(device.log)
  {
    if action == Some(ACTION_CLICK) {
      if device.launchable {
        device.log := device.log + [ActivityStarted(device.packageName, {NewTask})];
      }
    }
  }

  /** A missing balance renders as "Rp0". */
  lemma MissingBalanceRendersZero(store: map<string, Int32>)
    requires BALANCE_KEY !in store
    ensures RenderedViews(store).texts[WidgetBalance] == "Rp0"
  {
    ExampleZero();
  }

  /** A balance of 50000 renders as "Rp50.000" and no other text is written. */
  lemma BalanceFiftyThousandRenders(store: map<string, Int32>)
    requires BALANCE_KEY in store && store[BALANCE_KEY] == 50000
    ensures RenderedViews(store).texts == map[WidgetBalance := "Rp50.000"]
  {
    ExampleFiftyThousand();
  }

  /** Only the balance text and the root click are set; income and expense do
      not reach the view, so two snapshots with the same balance render the
      same. */
  lemma RenderDependsOnlyOnBalance(s1: map<string, Int32>, s2: map<string, Int32>)
    requires GetInt(s1, BALANCE_KEY, 0) == GetInt(s2, BALANCE_KEY, 0)
    ensures RenderedViews(s1) == RenderedViews(s2)
    ensures RenderedViews(s1).texts.Keys == {WidgetBalance}
    ensures RenderedViews(s1).clicks == map[WidgetRoot := WidgetClick]
  {
  }

  /** The rendered balance text is "Rp" followed by the grouped balance, and
      deleting its separators gives back the stored balance. */
  lemma RenderedBalanceReadsBack(store: map<string, Int32>)
    ensures var text := RenderedViews(store).texts[WidgetBalance];
      && text[..|PREFIX|] == PREFIX
      && IsSignedDecimal(RemoveAll(text[|PREFIX|..], SEPARATOR))
      && SignedValue(RemoveAll(text[|PREFIX|..], SEPARATOR)) == GetInt(store, BALANCE_KEY, 0)
  {
    var b := GetInt(store, BALANCE_KEY, 0);
    FormatCurrencyIsGrouping(b);
    FormatCurrencyRoundTrip(b);
  }
}
