/** The record the processor fills in and the metadata store persists. */
module Models {
  import opened Collections

  /** A point in time, as the tick count of a `DateTime`. */
  datatype DateTime = DateTime(Ticks: int)

  class DocumentMetadata {
    var Id: string
    var FileName: string
    var ContentType: string
    var ProcessedDate: DateTime
    var Status: string
    var ExtractedMetadata: Dictionary<string>
    /** Single-precision confidences in the source; nothing in the backend writes them. */
    var Confidence: Dictionary<real>

    /**
     * A fresh record. `id` stands for the new GUID and `now` for the clock
     * reading that the property initialisers take; every other property,
     * `Status` included, starts empty.
     */
    constructor (id: string, now: DateTime)
      ensures Id == id && ProcessedDate == now
      ensures FileName == "" && ContentType == "" && Status == ""
      ensures fresh(ExtractedMetadata) && ExtractedMetadata.Entries == map[]
      ensures fresh(Confidence) && Confidence.Entries == map[]
    {
      Id := id;
      FileName := "";
      ContentType := "";
      ProcessedDate := now;
      Status := "";
      ExtractedMetadata := new Dictionary();
      Confidence := new Dictionary();
    }
  }
}
