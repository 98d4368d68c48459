/**
 The row normaliser of `converter_scripts/convert_db_to_iath.py`: it reshapes a
 loosely-typed D1 export row into a four-section record, filling fixed
 defaults for absent keys.
 */
module Normaliser {
  import opened JsonValue

  /** The `metadata` section. */
  datatype Metadata = Metadata(knowledgeId: JVal, topic: JVal, createdAt: JVal)

  /** The `coordinates` section; each space is a Python list. */
  datatype Coordinates = Coordinates(medicalSpace: seq<JVal>, metaSpace: seq<JVal>)

  /** The `content` section; `thinkingProcess` is always an f-string result. */
  datatype Content = Content(thinkingProcess: string, finalResponse: JVal)

  /** The `verification` section. */
  datatype Verification = Verification(status: JVal, initialCertainty: real, reviewers: seq<JVal>)

  /** The dictionary returned for one tile. */
  datatype IathTile = IathTile(
    metadata: Metadata,
    coordinates: Coordinates,
    content: Content,
    verification: Verification)

  datatype Option<T> = None | Some(value: T)

  const AutoImportPrefix: string := "[Auto-imported]\n"
  const UntitledTopic: string := "Untitled Topic"
  const PendingReview: string := "pending_review"
  /** The Python float literal `0.0`. */
  const Zero: JVal := Num("0.0")
  const InitialCertainty: real := 0.5

  /** The row keys whose `x`, `y` and `z` feed `medical_space`, in order. */
  const CoordinateKeys: seq<string> := ["coordinates_x", "coordinates_y", "coordinates_z"]

  /** Every key the normaliser's output depends on. `author_mark` is read but never used. */
  const RelevantKeys: set<string> :=
    {"id", "content", "topic", "created_at",
     "coordinates_x", "coordinates_y", "coordinates_z", "verification_status"}

  /** The shape every converted record has: two three-entry coordinate spaces and a certainty in [0, 1]. */
  predicate WellShaped(t: IathTile)
  {
    && |t.coordinates.medicalSpace| == 3
    && |t.coordinates.metaSpace| == 3
    && 0.0 <= t.verification.initialCertainty <= 1.0
  }

  /**
   `convert_d1_to_iath_v1_compatible`. `now` is the reading of
   `datetime.now().isoformat()` taken while building this tile.
   */
  function Convert(row: Row, now: string): (t: IathTile)
    ensures WellShaped(t)
    ensures t.coordinates.metaSpace == [Zero, Zero, Zero]
    ensures t.verification.initialCertainty == 0.5
    ensures t.verification.reviewers == []
    ensures t.content.thinkingProcess == AutoImportPrefix + PyStr(t.content.finalResponse)
  {
    var knowledgeId := Get(row, "id", Null);
    var contentText := Get(row, "content", Str(""));
    IathTile(
      Metadata(knowledgeId, Get(row, "topic", Str(UntitledTopic)), Get(row, "created_at", Str(now))),
      Coordinates(
        [Get(row, CoordinateKeys[0], Zero), Get(row, CoordinateKeys[1], Zero), Get(row, CoordinateKeys[2], Zero)],
        [Zero, Zero, Zero]),
      Content(AutoImportPrefix + PyStr(contentText), contentText),
      Verification(Get(row, "verification_status", Str(PendingReview)), InitialCertainty, []))
  }

  /**
   The list comprehension `[convert(tile) for tile in knowledge_tiles_d1]`.
   The clock is read once per tile, so `nows[i]` belongs to `rows[i]`.
   */
  function ConvertAll(rows: seq<Row>, nows: seq<string>): (ts: seq<IathTile>)
    requires |nows| == |rows|
    ensures |ts| == |rows|
    ensures forall i :: 0 <= i < |rows| ==> ts[i] == Convert(rows[i], nows[i])
  {
    if rows == [] then []
    else [Convert(rows[0], nows[0])] + ConvertAll(rows[1..], nows[1..])
  }

  /** Reads the content back out of a `thinking_process` text, if it carries the import prefix. */
  function RecoverContent(thinking: string): (r: Option<string>)
    ensures r.Some? <==> |AutoImportPrefix| <= |thinking| && thinking[..|AutoImportPrefix|] == AutoImportPrefix
    ensures r.Some? ==> thinking == AutoImportPrefix + r.value
  {
    if |AutoImportPrefix| <= |thinking| && thinking[..|AutoImportPrefix|] == AutoImportPrefix
    then Some(thinking[|AutoImportPrefix|..])
    else None
  }

  /** The defaults the normaliser falls back to, as a dictionary keyed like a row. */
  function Defaults(now: string): (d: Row)
    ensures d.Keys == RelevantKeys
    ensures d["id"] == Null && d["content"] == Str("")
    ensures d["topic"] == Str(UntitledTopic) && d["created_at"] == Str(now)
    ensures d["verification_status"] == Str(PendingReview)
    ensures forall i :: 0 <= i < |CoordinateKeys| ==> d[CoordinateKeys[i]] == Zero
  {
    map["id" := Null, "content" := Str(""), "topic" := Str(UntitledTopic),
        "created_at" := Str(now), "coordinates_x" := Zero, "coordinates_y" := Zero,
        "coordinates_z" := Zero, "verification_status" := Str(PendingReview)]
  }

  /** Builds the record from a row in which every relevant key is present. */
  function FromComplete(full: Row): (t: IathTile)
    requires RelevantKeys <= full.Keys
  {
    IathTile(
      Metadata(full["id"], full["topic"], full["created_at"]),
      Coordinates([full["coordinates_x"], full["coordinates_y"], full["coordinates_z"]], [Zero, Zero, Zero]),
      Content(AutoImportPrefix + PyStr(full["content"]), full["content"]),
      Verification(full["verification_status"], InitialCertainty, []))
  }
}
