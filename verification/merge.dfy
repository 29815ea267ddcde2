/**
 `myMerge`: `Object.assign(objA, objB)` copies every property of `objB` onto
 `objA` and returns the result. Records are modelled as maps from property
 names to values; Dafny's map override `a + b` is right-biased in the same
 way, so the second argument wins every collision.
 */
module Merge {

  /** The property values the top-level call uses: strings, numbers, arrays. */
  datatype JsValue = Str(s: string) | Num(n: int) | Arr(elems: seq<JsValue>)

  function MyMerge<V>(objA: map<string, V>, objB: map<string, V>): (r: map<string, V>)
    ensures r.Keys == objA.Keys + objB.Keys
    ensures forall k :: k in objB ==> r[k] == objB[k]
    ensures forall k :: k in objA && k !in objB ==> r[k] == objA[k]
  {
    objA + objB
  }

  /** Merging a record into itself changes nothing. */
  lemma MergeIdempotent<V>(a: map<string, V>)
    ensures MyMerge(a, a) == a
  {
  }

  /** Merging in a record twice is the same as merging it once. */
  lemma MergeAbsorbs<V>(a: map<string, V>, b: map<string, V>)
    ensures MyMerge(MyMerge(a, b), b) == MyMerge(a, b)
  {
  }

  /** Successive merges can be regrouped. */
  lemma MergeAssociative<V>(a: map<string, V>, b: map<string, V>, c: map<string, V>)
    ensures MyMerge(MyMerge(a, b), c) == MyMerge(a, MyMerge(b, c))
  {
  }

  /** Argument order matters only on shared property names. */
  lemma MergeCommutesWhenDisjoint<V>(a: map<string, V>, b: map<string, V>)
    requires a.Keys !! b.Keys
    ensures MyMerge(a, b) == MyMerge(b, a)
  {
  }

  /** The call at the top level: a name and hobbies merged with an age. */
  lemma PersonExample()
    ensures
      var person := map["name" := Str("Sou"), "hobbies" := Arr([Str("Sports")])];
      MyMerge(person, map["age" := Num(23)])
        == map["name" := Str("Sou"), "hobbies" := Arr([Str("Sports")]), "age" := Num(23)]
  {
  }

  /** On a collision the second record's value is kept. */
  lemma CollisionExample()
    ensures MyMerge(map["a" := 1], map["a" := 2]) == map["a" := 2]
  {
  }
}
