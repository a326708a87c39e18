/** The parser's output records (backend/recipes/type_annotations.py): what
    the import pipeline hands from the parser to the saver. */
module Records {
  import opened Store

  datatype IngredientResult = IngredientResult(name: string, amount: int, unit: string)

  datatype RecipeResult = RecipeResult(
    name: string,
    text: string,
    image: string,
    cookingTime: int,
    tag: string,
    ingredients: seq<IngredientResult>)

  /** The (name, unit) pair an entry stands for in the Ingredient table. */
  function Pair(e: IngredientResult): Ingredient
  {
    Ingredient(e.name, e.unit)
  }
}
