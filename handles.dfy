/** The table `Item.getCollections` uses to turn a publication type
    (the `dc.type` value) into the handle of the DSpace collection that
    takes items of that type (item.py:79-88). */
module Handles {

  const TypeHandles: map<string, string> := map[
    "article" := "20.500.12034/6",
    "bachelorThesis" := "20.500.12034/723",
    "book" := "20.500.12034/4",
    "bookPart" := "20.500.12034/586",
    "code" := "20.500.12034/721",
    "conferenceObject" := "20.500.12034/7",
    "courseMaterial" := "20.500.12034/8",
    "doctoralThesis" := "20.500.12034/724",
    "habilitationTreatise" := "20.500.12034/725",
    "image" := "20.500.12034_627",
    "masterThesis" := "20.500.12034/10",
    "movingImage" := "20.500.12034/626",
    "other" := "20.500.12034/720",
    "preprint" := "20.500.12034/718",
    "preregistration" := "20.500.12034/736",
    "report" := "20.500.12034/9",
    "researchData" := "20.500.12034/576",
    "review" := "20.500.12034/719",
    "sound" := "20.500.12034/722",
    "test" := "20.500.12034/12"
  ]

  /** Every handle in the table has the prefix of the institution's
      handle namespace, so none of them is a type name. */
  lemma HandlesInNamespace()
    ensures forall t :: t in TypeHandles ==>
      |TypeHandles[t]| > 13 && TypeHandles[t][..12] == "20.500.12034"
  {
  }

  /** The collection for one (already stripped) type name: its handle when
      the table knows the type, otherwise the name itself. A resolved name
      is never a type of the table, so resolving it again changes nothing. */
  function ResolveCollection(typeName: string): (r: string)
    ensures r !in TypeHandles
    ensures r == typeName <==> typeName !in TypeHandles
    ensures typeName in TypeHandles ==> r in TypeHandles.Values
  {
    HandlesInNamespace();
    if typeName in TypeHandles then TypeHandles[typeName] else typeName
  }
}
