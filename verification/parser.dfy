/** The JSON parser (`JsonParser` in backend/recipes/services.py): a field
    mapping from the external API's raw recipes to `RecipeResult` records.
    `strip_tags` and the English-to-Russian translator are parameters; the
    translator answers `None` when the translation call fails. */
module Parser {
  import opened Wrappers
  import opened Seqs
  import opened Crawler
  import opened Records

  /** `DEFAULT_UNIT`, the Russian abbreviation for "pieces". */
  const DefaultUnit := "\U{0448}\U{0442}"

  datatype Text = Text(strip: string -> string, translate: string -> Option<string>)

  datatype ParseError = TranslationFailed(input: string)

  /** `_translate_string`: strip HTML tags, then translate. */
  function TranslateString(t: Text, s: string): Result<string, ParseError>
  {
    match t.translate(t.strip(s))
    case None => Failure(TranslationFailed(s))
    case Some(v) => Success(v)
  }

  /** `element.get('title') or element.get('name')`: an empty title falls back to the name. */
  function PickName(title: string, name: string): string
  {
    if title != "" then title else name
  }

  /** `math.ceil`. */
  function Ceil(x: real): (n: int)
    ensures x <= n as real < x + 1.0
  {
    -((-x).Floor)
  }

  function LowerChar(c: char): char
  {
    if 'A' <= c <= 'Z' then (c as int + 32) as char else c
  }

  /** `str.lower()` on the ASCII letters. */
  function Lower(s: string): (r: string)
    ensures |r| == |s|
    ensures forall i :: 0 <= i < |s| ==> r[i] == LowerChar(s[i])
  {
    seq(|s|, i requires 0 <= i < |s| => LowerChar(s[i]))
  }

  /** `_set_measurement_unit`: the lower-cased long unit name, translated, or the default unit when it is empty. */
  function MeasurementUnit(t: Text, unitLong: string): Result<string, ParseError>
  {
    var unit := Lower(unitLong);
    if unit != "" then TranslateString(t, unit) else Success(DefaultUnit)
  }

  /** The handlers `_set_name`, `_set_amount`, `_set_measurement_unit`, in the
      declared field order of `IngredientResult`. */
  function ParseIngredient(t: Text, raw: RawIngredient): (r: Result<IngredientResult, ParseError>)
    ensures r.Success? ==> raw.usAmount <= r.value.amount as real < raw.usAmount + 1.0
    ensures r.Success? && raw.unitLong == "" ==> r.value.unit == DefaultUnit
    ensures r.Success? && raw.unitLong != "" ==> TranslateString(t, Lower(raw.unitLong)) == Success(r.value.unit)
    ensures r.Success? ==> TranslateString(t, PickName(raw.title, raw.name)) == Success(r.value.name)
    ensures r.Success? <==>
      TranslateString(t, PickName(raw.title, raw.name)).Success?
      && (raw.unitLong == "" || TranslateString(t, Lower(raw.unitLong)).Success?)
  {
    match TranslateString(t, PickName(raw.title, raw.name))
    case Failure(e) => Failure(e)
    case Success(name) =>
      var amount := Ceil(raw.usAmount);
      match MeasurementUnit(t, raw.unitLong)
      case Failure(e) => Failure(e)
      case Success(unit) => Success(IngredientResult(name, amount, unit))
  }

  /** The handlers of `RecipeResult`'s fields in declared order; `_set_ingredients`
      parses every entry of `extendedIngredients` in order. */
  function ParseRecipe(t: Text, tag: string, raw: RawRecipe): (r: Result<RecipeResult, ParseError>)
    ensures r.Success? ==>
      && r.value.tag == tag
      && r.value.image == raw.image
      && r.value.cookingTime == raw.readyInMinutes
      && TranslateString(t, PickName(raw.title, raw.name)) == Success(r.value.name)
      && TranslateString(t, raw.summary) == Success(r.value.text)
      && |r.value.ingredients| == |raw.extendedIngredients|
      && forall i :: 0 <= i < |raw.extendedIngredients| ==>
           ParseIngredient(t, raw.extendedIngredients[i]) == Success(r.value.ingredients[i])
    ensures r.Success? <==>
      && TranslateString(t, PickName(raw.title, raw.name)).Success?
      && TranslateString(t, raw.summary).Success?
      && forall i :: 0 <= i < |raw.extendedIngredients| ==> ParseIngredient(t, raw.extendedIngredients[i]).Success?
  {
    match TranslateString(t, PickName(raw.title, raw.name))
    case Failure(e) => Failure(e)
    case Success(name) =>
      match TranslateString(t, raw.summary)
      case Failure(e) => Failure(e)
      case Success(text) =>
        match Traverse(raw.extendedIngredients, (i: RawIngredient) => ParseIngredient(t, i))
        case Failure(e) => Failure(e)
        case Success(ingredients) =>
          Success(RecipeResult(name, text, raw.image, raw.readyInMinutes, tag, ingredients))
  }

  /** `JsonParser(data, tag).parse()`: one record per raw recipe, in input
      order, each built from its own raw recipe alone (the reused buffer is
      copied before it is cleared); the first translation failure aborts the batch. */
  function Parse(t: Text, tag: string, raws: seq<RawRecipe>): (r: Result<seq<RecipeResult>, ParseError>)
    ensures r.Success? ==>
      && |r.value| == |raws|
      && forall i :: 0 <= i < |raws| ==>
           && ParseRecipe(t, tag, raws[i]) == Success(r.value[i])
           && r.value[i].tag == tag
           && |r.value[i].ingredients| == |raws[i].extendedIngredients|
    ensures r.Success? <==> forall i :: 0 <= i < |raws| ==> ParseRecipe(t, tag, raws[i]).Success?
    decreases |raws|
  {
    if |raws| == 0 then Success([])
    else match ParseRecipe(t, tag, raws[0])
      case Failure(e) => Failure(e)
      case Success(rec) =>
        match Parse(t, tag, raws[1..])
        case Failure(e) => Failure(e)
        case Success(recs) => Success([rec] + recs)
  }
}
