/**
 What the normaliser promises about its output, stated against the source row.
 */
module NormaliserProperties {
  import opened JsonValue
  import opened Normaliser

  /** `knowledge_id` is the row's `id`; when `id` is absent it is `None`, nothing is invented. */
  lemma KnowledgeIdIsRowId(row: Row, now: string)
    ensures Convert(row, now).metadata.knowledgeId == (if "id" in row then row["id"] else Null)
  {
  }

  /** `row.get('id')` cannot tell an absent `id` from a present `null` one. */
  lemma AbsentIdIsLikeNullId(row: Row, now: string)
    ensures Convert(row - {"id"}, now) == Convert(row["id" := Null], now)
  {
  }

  /** Each `medical_space` component is copied untransformed from its row key, or is `0.0` when absent. */
  lemma CoordinatePassThrough(row: Row, now: string, i: int)
    requires 0 <= i < 3
    ensures
      var m := Convert(row, now).coordinates.medicalSpace;
      var key := CoordinateKeys[i];
      && (key in row ==> m[i] == row[key])
      && (key !in row ==> m[i] == Zero)
      && (m[i] == Zero <==> key !in row || row[key] == Zero)
  {
  }

  /**
   `topic`, `created_at` and `status` take their defaults only when the key is
   absent; a present value is copied verbatim, whatever it is.
   */
  lemma DefaultsOnlyWhenAbsent(row: Row, now: string)
    ensures
      var t := Convert(row, now);
      && (if "topic" in row then t.metadata.topic == row["topic"] else t.metadata.topic == Str(UntitledTopic))
      && (if "created_at" in row then t.metadata.createdAt == row["created_at"] else t.metadata.createdAt == Str(now))
      && (if "verification_status" in row then t.verification.status == row["verification_status"]
          else t.verification.status == Str(PendingReview))
      && (t.metadata.topic == Str(UntitledTopic) <==>
            "topic" !in row || row["topic"] == Str(UntitledTopic))
      && (t.metadata.createdAt == Str(now) <==>
            "created_at" !in row || row["created_at"] == Str(now))
      && (t.verification.status == Str(PendingReview) <==>
            "verification_status" !in row || row["verification_status"] == Str(PendingReview))
  {
  }

  /** A present `null` or empty value is kept: a `null` content even prints as `None`. */
  lemma NullAndEmptyAreNotDefaulted(now: string)
    ensures
      var t := Convert(map["topic" := Null, "created_at" := Str(""), "verification_status" := Str(""),
                           "content" := Null], now);
      && t.metadata.topic == Null
      && t.metadata.createdAt == Str("")
      && t.verification.status == Str("")
      && t.content.finalResponse == Null
      && t.content.thinkingProcess == "[Auto-imported]\nNone"
  {
  }

  /** Stripping the import prefix inverts the `thinking_process` f-string. */
  lemma RecoverContentInverse(s: string)
    ensures RecoverContent(AutoImportPrefix + s) == Some(s)
  {
    var t := AutoImportPrefix + s;
    assert t[..|AutoImportPrefix|] == AutoImportPrefix;
    assert t[|AutoImportPrefix|..] == s;
  }

  /**
   `final_response` is the row's content (or `''`), and `thinking_process` is
   that content behind the import prefix, from which it can be read back.
   */
  lemma ContentDerivation(row: Row, now: string)
    ensures
      var t := Convert(row, now);
      && t.content.finalResponse == (if "content" in row then row["content"] else Str(""))
      && RecoverContent(t.content.thinkingProcess) == Some(PyStr(t.content.finalResponse))
      && ("content" in row && row["content"].Str? ==>
            t.content.thinkingProcess == AutoImportPrefix + row["content"].s)
      && ("content" !in row ==> t.content.thinkingProcess == AutoImportPrefix)
  {
    var t := Convert(row, now);
    RecoverContentInverse(PyStr(t.content.finalResponse));
  }

  /** The normaliser reads the row laid over a dictionary of its defaults. */
  lemma ConvertIsOverlayOnDefaults(row: Row, now: string)
    ensures RelevantKeys <= (Defaults(now) + row).Keys
    ensures Convert(row, now) == FromComplete(Defaults(now) + row)
  {
  }

  /** Two rows that agree on every relevant key, presence included, convert alike. */
  lemma OnlyRelevantKeysMatter(r1: Row, r2: Row, now: string)
    requires forall k :: k in RelevantKeys ==> (k in r1 <==> k in r2) && (k in r1 ==> r1[k] == r2[k])
    ensures Convert(r1, now) == Convert(r2, now)
  {
    assert forall k :: k in RelevantKeys ==> Get(r1, k, Null) == Get(r2, k, Null);
  }

  /** Setting or removing any other key, `author_mark` among them, leaves the output unchanged. */
  lemma IrrelevantKeyIgnored(row: Row, now: string, k: string, v: JVal)
    requires k !in RelevantKeys
    ensures Convert(row[k := v], now) == Convert(row, now)
    ensures Convert(row - {k}, now) == Convert(row, now)
  {
    OnlyRelevantKeysMatter(row[k := v], row, now);
    OnlyRelevantKeysMatter(row - {k}, row, now);
  }

  /** Conversely, two different present values of a relevant key give different records. */
  lemma RelevantKeysMatter(r1: Row, r2: Row, now: string, k: string)
    requires k in RelevantKeys && k in r1 && k in r2 && r1[k] != r2[k]
    ensures Convert(r1, now) != Convert(r2, now)
  {
    var t1, t2 := Convert(r1, now), Convert(r2, now);
    if k == "id" {
      assert t1.metadata.knowledgeId != t2.metadata.knowledgeId;
    } else if k == "content" {
      assert t1.content.finalResponse != t2.content.finalResponse;
    } else if k == "topic" {
      assert t1.metadata.topic != t2.metadata.topic;
    } else if k == "created_at" {
      assert t1.metadata.createdAt != t2.metadata.createdAt;
    } else if k == "verification_status" {
      assert t1.verification.status != t2.verification.status;
    } else {
      var i := if k == CoordinateKeys[0] then 0 else if k == CoordinateKeys[1] then 1 else 2;
      assert t1.coordinates.medicalSpace[i] != t2.coordinates.medicalSpace[i];
    }
  }

  /**
   Two rows convert alike exactly when, after laying each over the defaults,
   they agree on every relevant key.
   */
  lemma ConvertEqualIff(r1: Row, r2: Row, now: string)
    ensures Convert(r1, now) == Convert(r2, now) <==>
      forall k :: k in RelevantKeys ==> (Defaults(now) + r1)[k] == (Defaults(now) + r2)[k]
  {
    var f1, f2 := Defaults(now) + r1, Defaults(now) + r2;
    ConvertIsOverlayOnDefaults(r1, now);
    ConvertIsOverlayOnDefaults(r2, now);
    if Convert(r1, now) == Convert(r2, now) {
      var t1, t2 := FromComplete(f1), FromComplete(f2);
      assert t1.coordinates.medicalSpace[0] == t2.coordinates.medicalSpace[0];
      assert t1.coordinates.medicalSpace[1] == t2.coordinates.medicalSpace[1];
      assert t1.coordinates.medicalSpace[2] == t2.coordinates.medicalSpace[2];
    }
  }

  /** A row with no keys at all yields the all-defaults record. */
  lemma EmptyRowGivesDefaults(now: string)
    ensures Convert(map[], now) ==
      IathTile(
        Metadata(Null, Str("Untitled Topic"), Str(now)),
        Coordinates([Num("0.0"), Num("0.0"), Num("0.0")], [Num("0.0"), Num("0.0"), Num("0.0")]),
        Content("[Auto-imported]\n", Str("")),
        Verification(Str("pending_review"), 0.5, []))
  {
  }

  /** An absent `id` gives a `None` identifier, and a present empty `topic` is copied. */
  lemma IdentityMayStayEmpty(now: string)
    ensures Convert(map[], now).metadata.knowledgeId == Null
    ensures Convert(map["topic" := Str("")], now).metadata.topic == Str("")
  {
  }

  /** Converting a concatenation of batches is concatenating their conversions. */
  lemma {:induction false} ConvertAllAppend(a: seq<Row>, na: seq<string>, b: seq<Row>, nb: seq<string>)
    requires |na| == |a| && |nb| == |b|
    ensures ConvertAll(a + b, na + nb) == ConvertAll(a, na) + ConvertAll(b, nb)
  {
    if a == [] {
      assert a + b == b && na + nb == nb;
    } else {
      assert (a + b)[1..] == a[1..] + b;
      assert (na + nb)[1..] == na[1..] + nb;
      ConvertAllAppend(a[1..], na[1..], b, nb);
    }
  }

  /** Every record of a converted batch meets the shape invariants. */
  lemma ConvertAllWellShaped(rows: seq<Row>, nows: seq<string>)
    requires |nows| == |rows|
    ensures forall t :: t in ConvertAll(rows, nows) ==>
      WellShaped(t) && t.coordinates.metaSpace == [Zero, Zero, Zero] && t.verification.reviewers == []
  {
  }
}
