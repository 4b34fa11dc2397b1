/**
 The catalog's record type and the six classification categories. The catalog
 itself is data supplied from outside; a few of its entries are given here as
 sample values for the scenarios.
 */
module Drugs {

  datatype Option<+T> = None | Some(value: T)

  /** The six category keys, in the order of the game's `CATEGORIES` table. */
  datatype Category =
    | TherapeuticClass
    | MoleculeClass
    | Route
    | Prescription
    | Mechanism
    | TargetSystem

  /** One catalog entry: a name, six categorical attributes and an optional summary. */
  datatype DrugRecord = DrugRecord(
    name: string,
    therapeuticClass: string,
    moleculeClass: string,
    route: string,
    prescription: string,
    mechanism: string,
    targetSystem: string,
    summary: Option<string>)
  {
    /** `record[key]`: the attribute stored under a category key. */
    function Attr(c: Category): string {
      match c
      case TherapeuticClass => therapeuticClass
      case MoleculeClass => moleculeClass
      case Route => route
      case Prescription => prescription
      case Mechanism => mechanism
      case TargetSystem => targetSystem
    }
  }

  /** All six categories, in table order. */
  const Categories: seq<Category> :=
    [TherapeuticClass, MoleculeClass, Route, Prescription, Mechanism, TargetSystem]

  /** The categories a hint may disclose: every category except prescription, in table order. */
  function HintCategories(): (r: seq<Category>)
    ensures Prescription !in r
    ensures forall c :: c in r <==> c in Categories && c != Prescription
    ensures |r| == 5
    ensures forall i, j :: 0 <= i < j < |r| ==> r[i] != r[j]
  {
    FilterOut(Categories, Prescription)
  }

  /** `cats.filter(c => c !== x)`. */
  function FilterOut(cats: seq<Category>, x: Category): (r: seq<Category>)
    ensures forall c :: c in r <==> c in cats && c != x
    ensures |r| <= |cats|
  {
    if cats == [] then []
    else if cats[0] == x then FilterOut(cats[1..], x)
    else [cats[0]] + FilterOut(cats[1..], x)
  }

  const Aspirin := DrugRecord("Aspirin", "NSAID", "Salicylate", "Oral", "OTC",
    "COX inhibitor", "Cardiovascular",
    Some("Did you know? Aspirin can reduce the risk of heart attacks and strokes in low doses."))

  const Ibuprofen := DrugRecord("Ibuprofen", "NSAID", "Propionic acid", "Oral", "OTC",
    "COX inhibitor", "Musculoskeletal",
    Some("Did you know? Ibuprofen is commonly used to reduce fever, pain, and inflammation."))
}
