/** The rows of the four tables the application reads and writes
    (`ingredients`, `recipes`, `recipe_ingredients`, `user_inventory`), the
    signed-in user, and the `{ data, error }` pair every store call returns.
    Identifiers are strings; nested related rows that a select expands
    (`ingredients (*)`, `recipe_ingredients (...)`) are optional fields. */
module Entities {
  import opened JsValues

  type Id = string

  /** The identity the auth provider yields for the current session. */
  datatype User = User(id: Id, email: string)

  /** A row of `ingredients`. */
  datatype Ingredient = Ingredient(id: Id, name: string, category: string)

  /** A row of `recipe_ingredients`, optionally expanded with its ingredient. */
  datatype RecipeIngredient = RecipeIngredient(
    id: Id,
    recipeId: Id,
    ingredientId: Id,
    quantity: real,
    unit: string,
    ingredient: Option<Ingredient>)

  /** A row of `recipes`; `recipeIngredients` is the expanded join, absent
      when the select did not return it. */
  datatype Recipe = Recipe(
    id: Id,
    userId: Id,
    name: string,
    description: string,
    instructions: string,
    createdAt: string,
    recipeIngredients: Option<seq<RecipeIngredient>>)

  /** A row of `user_inventory`, optionally expanded with its ingredient. */
  datatype InventoryItem = InventoryItem(
    id: Id,
    userId: Id,
    ingredientId: Id,
    quantity: real,
    unit: string,
    expiryDate: Option<string>,
    ingredient: Option<Ingredient>)

  /** The body inserted into `recipe_ingredients`. */
  datatype RecipeIngredientRow = RecipeIngredientRow(
    recipeId: Id,
    ingredientId: Id,
    quantity: real,
    unit: string)

  /** The body inserted into `user_inventory`; `userId` is None when the
      object carries no `user_id` key. */
  datatype InventoryPayload = InventoryPayload(
    ingredientId: Id,
    quantity: real,
    unit: string,
    expiryDate: Option<string>,
    userId: Option<Id>)

  /** The body inserted into `recipes`. */
  datatype NewRecipe = NewRecipe(
    userId: Id,
    name: string,
    description: string,
    instructions: string)

  /** The body inserted into (or upserted into) `ingredients`. */
  datatype NewIngredient = NewIngredient(name: string, category: string)

  datatype StoreError = StoreError(message: string)

  /** What a store call resolves to: `{ data, error }`, either possibly null. */
  datatype Reply<+T> = Reply(data: Option<T>, error: Option<StoreError>)
}
