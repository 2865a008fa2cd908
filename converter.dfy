/** The two-role converter form of components/converter-form/converter.tsx:
    one editable amount in a source currency, one computed amount in a
    target currency, and a flag that hides the form until the rate table
    has arrived.

    The state record and its transitions are stated once as values
    (FormState and the *Step functions), which is what the invariant lemmas
    talk about; the class Converter at the end is the component itself,
    whose handlers update its fields in place and are proved to follow
    those transitions. */
module ConverterForm {
  import opened Rates

  /** The component state `IState`. `resultValue` is a Conversion, so a
      conversion that JavaScript would turn into NaN keeps its cause. */
  datatype FormState = FormState(
    sourceValue: real,
    resultValue: Conversion,
    sourceCurrency: Currency,
    targetCurrency: Currency,
    isLoading: bool)

  /** The two pickers never show the same currency. */
  predicate Distinct(s: FormState)
  {
    s.sourceCurrency != s.targetCurrency
  }

  /** The displayed result is the conversion of the entered amount. */
  predicate Consistent(rates: RateTable, s: FormState)
  {
    s.resultValue == Convert(rates, s.sourceValue, s.sourceCurrency, s.targetCurrency)
  }

  /** The state set by the constructor. */
  function Initial(): (s: FormState)
    ensures Distinct(s) && s.isLoading
    ensures s.sourceValue == 0.0 && s.resultValue == Amount(0.0)
    ensures s.sourceCurrency == USD && s.targetCurrency == RUB
  {
    FormState(0.0, Amount(0.0), USD, RUB, true)
  }

  /** `convert(updatedValue)`: a new amount was entered. */
  function ConvertStep(rates: RateTable, s: FormState, updatedValue: real): (r: FormState)
    ensures r.sourceValue == updatedValue
    ensures r.sourceCurrency == s.sourceCurrency && r.targetCurrency == s.targetCurrency
    ensures r.isLoading == s.isLoading
    ensures Consistent(rates, r)
    ensures Distinct(r) <==> Distinct(s)
  {
    s.(sourceValue := updatedValue,
       resultValue := Convert(rates, updatedValue, s.sourceCurrency, s.targetCurrency))
  }

  /** `setCurrency(updatedCurrency)`: a new target currency was picked. The
      two currencies stay distinct exactly when the pick differs from the
      source currency, which the target picker guarantees by excluding it. */
  function SetCurrencyStep(rates: RateTable, s: FormState, updatedCurrency: Currency): (r: FormState)
    ensures r.targetCurrency == updatedCurrency
    ensures r.sourceValue == s.sourceValue && r.sourceCurrency == s.sourceCurrency
    ensures r.isLoading == s.isLoading
    ensures Consistent(rates, r)
    ensures Distinct(r) <==> updatedCurrency != s.sourceCurrency
  {
    s.(targetCurrency := updatedCurrency,
       resultValue := Convert(rates, s.sourceValue, s.sourceCurrency, updatedCurrency))
  }

  /** `setSourceCurrency(updatedCurrency)`: a new source currency was picked.
      Picking the current target currency swaps the pair. */
  function SetSourceCurrencyStep(rates: RateTable, s: FormState, updatedCurrency: Currency): (r: FormState)
    ensures r.sourceCurrency == updatedCurrency
    ensures updatedCurrency == s.targetCurrency ==> r.targetCurrency == s.sourceCurrency
    ensures updatedCurrency != s.targetCurrency ==> r.targetCurrency == s.targetCurrency
    ensures r.sourceValue == s.sourceValue && r.isLoading == s.isLoading
    ensures Consistent(rates, r)
    ensures Distinct(s) ==> Distinct(r)
  {
    var targetCurrency :=
      if s.targetCurrency == updatedCurrency then s.sourceCurrency else s.targetCurrency;
    s.(sourceCurrency := updatedCurrency,
       targetCurrency := targetCurrency,
       resultValue := Convert(rates, s.sourceValue, updatedCurrency, targetCurrency))
  }

  /** `stopLoading()`: only the loading flag changes. */
  function StopLoadingStep(s: FormState): (r: FormState)
    ensures !r.isLoading
    ensures r.sourceValue == s.sourceValue && r.resultValue == s.resultValue
    ensures r.sourceCurrency == s.sourceCurrency && r.targetCurrency == s.targetCurrency
  {
    s.(isLoading := false)
  }

  /** What `render` shows: a preloader while loading, otherwise the form,
      whose target picker leaves out the current source currency. */
  datatype View =
    | Preloader
    | Form(amount: real, output: Conversion, sourceCurrency: Currency,
           targetCurrency: Currency, targetExcluded: seq<Currency>)

  function Render(s: FormState): (v: View)
    ensures v.Preloader? <==> s.isLoading
    ensures v.Form? ==> v.amount == s.sourceValue && v.output == s.resultValue
    ensures v.Form? ==> forall c :: c in v.targetExcluded <==> c == s.sourceCurrency
  {
    if s.isLoading then Preloader
    else Form(s.sourceValue, s.resultValue, s.sourceCurrency, s.targetCurrency, [s.sourceCurrency])
  }

  /** What reaches the component: an input on one of the rendered controls,
      or the end of the rate-table load. */
  datatype Event =
    | AmountEntered(value: real)
    | SourcePicked(currency: Currency)
    | TargetPicked(currency: Currency)
    | LoadFinished

  /** One event against one state. Input events need a rendered form: on the
      preloader there is nothing to receive them. A target the picker
      excludes is never offered, so a pick of it does not arise. */
  function OnEvent(rates: RateTable, s: FormState, e: Event): (r: FormState)
    ensures s.isLoading && !e.LoadFinished? ==> r == s
    ensures Distinct(s) ==> Distinct(r)
    ensures Consistent(rates, s) ==> Consistent(rates, r)
    ensures !s.isLoading && (e.AmountEntered? || e.SourcePicked?) ==> Consistent(rates, r)
    ensures !s.isLoading && e.TargetPicked? ==>
              if e.currency == s.sourceCurrency then r == s
              else Consistent(rates, r) && r.targetCurrency == e.currency
    ensures !s.isLoading && e.AmountEntered? ==> r == ConvertStep(rates, s, e.value)
    ensures !s.isLoading && e.SourcePicked? ==> r == SetSourceCurrencyStep(rates, s, e.currency)
    ensures !s.isLoading && e.TargetPicked? && e.currency != s.sourceCurrency ==>
              r == SetCurrencyStep(rates, s, e.currency)
    ensures e.LoadFinished? ==> r == StopLoadingStep(s)
  {
    match Render(s)
    case Preloader =>
      if e.LoadFinished? then StopLoadingStep(s) else s
    case Form(_, _, _, _, excluded) =>
      match e
      case AmountEntered(v) => ConvertStep(rates, s, v)
      case SourcePicked(c) => SetSourceCurrencyStep(rates, s, c)
      case TargetPicked(c) => if c in excluded then s else SetCurrencyStep(rates, s, c)
      case LoadFinished => StopLoadingStep(s)
  }

  /** A session: the events in the order they arrive. */
  function Run(rates: RateTable, s: FormState, events: seq<Event>): FormState
    decreases |events|
  {
    if events == [] then s else Run(rates, OnEvent(rates, s, events[0]), events[1..])
  }

  /** What holds of every state a session reaches: the currencies differ,
      the untouched initial state is kept while loading, and once the form
      is shown its result is the conversion of its amount. */
  predicate Coherent(rates: RateTable, s: FormState)
  {
    && Distinct(s)
    && (s.isLoading ==> s == Initial())
    && (!s.isLoading ==> Consistent(rates, s))
  }

  /** Every event keeps a state coherent, given a table that prices the
      default pair (so the initial 0 is the conversion of 0). */
  lemma OnEventKeepsCoherent(rates: RateTable, s: FormState, e: Event)
    requires HasRate(rates, USD) && RUB in rates
    requires Coherent(rates, s)
    ensures Coherent(rates, OnEvent(rates, s, e))
  {
    if s.isLoading && e.LoadFinished? {
      ConvertZero(rates, USD, RUB);
    }
  }

  /** Every session that starts from the constructor's state stays coherent;
      with a complete table the result shown is always an amount. */
  lemma {:induction false} RunKeepsCoherent(rates: RateTable, s: FormState, events: seq<Event>)
    requires HasRate(rates, USD) && RUB in rates
    requires Coherent(rates, s)
    ensures Coherent(rates, Run(rates, s, events))
    ensures Complete(rates) ==> Run(rates, s, events).resultValue.Amount?
    decreases |events|
  {
    if events != [] {
      OnEventKeepsCoherent(rates, s, events[0]);
      RunKeepsCoherent(rates, OnEvent(rates, s, events[0]), events[1..]);
    } else if Complete(rates) && !s.isLoading {
      CompleteConvertsEverything(rates, s.sourceValue, s.sourceCurrency, s.targetCurrency);
    }
  }

  /** The theorem for the form as mounted. */
  lemma SessionIsCoherent(rates: RateTable, events: seq<Event>)
    requires HasRate(rates, USD) && RUB in rates
    ensures Coherent(rates, Run(rates, Initial(), events))
  {
    RunKeepsCoherent(rates, Initial(), events);
  }

  /** While the preloader is shown, input events change nothing. */
  lemma {:induction false} LoadingIgnoresInput(rates: RateTable, s: FormState, events: seq<Event>)
    requires s.isLoading
    requires forall i :: 0 <= i < |events| ==> !events[i].LoadFinished?
    ensures Run(rates, s, events) == s
    decreases |events|
  {
    if events != [] {
      LoadingIgnoresInput(rates, s, events[1..]);
    }
  }

  /** Showing the result: with both rates usable, the displayed result
      converts back to the entered amount. */
  lemma ResultConvertsBack(rates: RateTable, s: FormState)
    requires Consistent(rates, s)
    requires HasRate(rates, s.sourceCurrency) && HasRate(rates, s.targetCurrency)
    ensures s.resultValue.Amount?
    ensures Convert(rates, s.resultValue.value, s.targetCurrency, s.sourceCurrency) == Amount(s.sourceValue)
  {
    ConvertRoundTrip(rates, s.sourceValue, s.sourceCurrency, s.targetCurrency);
  }

  /** Picking the target as source swaps the pair; doing it again (picking
      the old source, now the target) restores the state exactly. */
  lemma SwapTwiceRestores(rates: RateTable, s: FormState)
    requires Distinct(s) && Consistent(rates, s)
    ensures SetSourceCurrencyStep(rates, s, s.targetCurrency).sourceCurrency == s.targetCurrency
    ensures SetSourceCurrencyStep(rates, s, s.targetCurrency).targetCurrency == s.sourceCurrency
    ensures SetSourceCurrencyStep(rates, SetSourceCurrencyStep(rates, s, s.targetCurrency), s.sourceCurrency) == s
  {
  }

  /** Entering an amount and picking a target currency commute. */
  lemma AmountAndTargetCommute(rates: RateTable, s: FormState, v: real, c: Currency)
    ensures SetCurrencyStep(rates, ConvertStep(rates, s, v), c) == ConvertStep(rates, SetCurrencyStep(rates, s, c), v)
  {
  }

  /** With the table {USD: 1, RUB: 100}, entering 50 dollars shows 5000
      roubles. */
  lemma FiftyDollarsInRoubles()
    ensures ConvertStep(map[USD := 1.0, RUB := 100.0], StopLoadingStep(Initial()), 50.0).resultValue
            == Amount(5000.0)
  {
  }

  /** The React component. `currencyMap` is `_currencyMap`: empty (every
      lookup misses) until the load completes, then the decoded rate
      sheet. Each handler replaces the state as one atomic transition. */
  class Converter {
    var sourceValue: real
    var resultValue: Conversion
    var sourceCurrency: Currency
    var targetCurrency: Currency
    var isLoading: bool
    var currencyMap: RateTable

    /** The state record the fields make up. */
    function State(): FormState
      reads this
    {
      FormState(sourceValue, resultValue, sourceCurrency, targetCurrency, isLoading)
    }

    /** The currencies differ. This is the component's own invariant; the
        invariant of a whole session, which also ties the shown result to
        the rate table, is `Coherent` on the state value. */
    ghost predicate Valid()
      reads this
    {
      Distinct(State())
    }

    constructor ()
      ensures Valid()
      ensures State() == Initial() && currencyMap == map[]
    {
      sourceValue := 0.0;
      resultValue := Amount(0.0);
      sourceCurrency := USD;
      targetCurrency := RUB;
      isLoading := true;
      currencyMap := map[];
    }

    /** The end of `componentDidMount`, after the fetch and the JSON
        decoding: keep the table, then stop loading. */
    method Load(sheet: RateTable)
      modifies this
      ensures old(Valid()) ==> Valid()
      ensures currencyMap == sheet
      ensures State() == StopLoadingStep(old(State()))
    {
      currencyMap := sheet;
      StopLoading();
    }

    method Convert(updatedValue: real)
      modifies this
      ensures old(Valid()) ==> Valid()
      ensures currencyMap == old(currencyMap)
      ensures State() == ConvertStep(currencyMap, old(State()), updatedValue)
    {
      sourceValue, resultValue :=
        updatedValue, Rates.Convert(currencyMap, updatedValue, sourceCurrency, targetCurrency);
    }

    /** Called from the target picker, which excludes the source currency;
        the handler itself does not check it. */
    method SetCurrency(updatedCurrency: Currency)
      modifies this
      ensures Valid() <==> updatedCurrency != old(sourceCurrency)
      ensures currencyMap == old(currencyMap)
      ensures State() == SetCurrencyStep(currencyMap, old(State()), updatedCurrency)
    {
      var value := sourceValue;
      sourceValue, targetCurrency, resultValue :=
        value, updatedCurrency, Rates.Convert(currencyMap, value, sourceCurrency, updatedCurrency);
    }

    method SetSourceCurrency(updatedCurrency: Currency)
      modifies this
      ensures old(Valid()) ==> Valid()
      ensures currencyMap == old(currencyMap)
      ensures State() == SetSourceCurrencyStep(currencyMap, old(State()), updatedCurrency)
    {
      var value := sourceValue;
      var target := targetCurrency;
      if target == updatedCurrency {
        target := sourceCurrency;
      }
      sourceValue, sourceCurrency, resultValue, targetCurrency :=
        value, updatedCurrency, Rates.Convert(currencyMap, value, updatedCurrency, target), target;
    }

    method StopLoading()
      modifies this
      ensures old(Valid()) ==> Valid()
      ensures currencyMap == old(currencyMap)
      ensures State() == StopLoadingStep(old(State()))
    {
      isLoading := false;
    }
  }
}
