/**
 * The `Food` record (src/core/food.rs) as the fixtures and the API carry it.
 * Nutrient values and serving weights are `f32` in the source; the model
 * keeps each as its bit pattern and never computes with it.
 */
module Foods {
  import opened Wrappers

  /** An `f32`, held as its 32 bits. */
  datatype F32 = F32(bits: bv32)

  datatype Nutrients = Nutrients(
    glycemicIndex: F32,
    energy: F32,
    carbohydrate: F32,
    protein: F32,
    fat: F32,
    saturatedFat: F32,
    transFat: F32,
    sugar: F32,
    fiber: F32,
    cholesterol: F32,
    sodium: F32,
    potassium: F32,
    iron: F32,
    magnesium: F32,
    calcium: F32,
    zinc: F32,
    vitaminA: F32,
    vitaminB6: F32,
    vitaminB12: F32,
    vitaminC: F32,
    vitaminD: F32,
    vitaminE: F32,
    vitaminK: F32)

  /** One named portion and its weight in grams. */
  datatype Serving = Serving(name: string, weight: F32)

  /**
   * `id` and `verified` may be absent in a fixture. `servings` is a
   * `HashMap<String, f32>` in the source; here it is that map in the order
   * its iteration visits it, so its names are pairwise distinct.
   */
  datatype Food = Food(
    id: Option<nat>,
    description: string,
    verified: Option<bool>,
    imageUrl: string,
    source: string,
    tags: seq<string>,
    allergens: seq<string>,
    servings: seq<Serving>,
    nutrients: Nutrients)

  /** What a `HashMap` guarantees of its keys: no serving name twice. */
  predicate DistinctServingNames(servings: seq<Serving>) {
    forall i, j :: 0 <= i < j < |servings| ==> servings[i].name != servings[j].name
  }
}
