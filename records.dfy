/** The enhancement-proposal record (one entry of keps.json), shared by the
    ingestion script and the viewer. */
module Records {
  import opened Wrappers

  /** One KEP record. `kepNumber` is `None` when the JSON object has no such
      property; `readmeUrl` is the field the ingestion script adds. The authors
      list is kept as the array of strings it is in the JSON. */
  datatype Kep = Kep(
    kepNumber: Option<string>,
    name: string,
    owningSig: string,
    title: string,
    stage: string,
    latestMilestone: string,
    authors: seq<string>,
    readmeUrl: Option<string>)
}
