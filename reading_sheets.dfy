/**
 * The reading-sheet templates: the fields of an essay sheet and of a
 * novel/history sheet, each with an id, a label, an optional helper line
 * and an optional field type.
 */
module ReadingSheets {
  import opened Types
  import opened Seqs

  datatype FieldType = Text | Rating

  datatype SheetField = SheetField(
    id: string,
    caption: string,
    helper: Option<string>,
    fieldType: Option<FieldType>,
    placeholder: Option<string>)

  /** A field with a caption (its label) and a helper line, and no type or placeholder. */
  function Plain(id: string, caption: string, helper: string): SheetField {
    SheetField(id, caption, Some(helper), None, None)
  }

  function FieldIds(fields: seq<SheetField>): (ids: seq<string>)
    ensures |ids| == |fields|
    ensures forall i :: 0 <= i < |fields| ==> ids[i] == fields[i].id
  {
    seq(|fields|, i requires 0 <= i < |fields| => fields[i].id)
  }

  /** The ids of the fields typed as ratings, in template order. */
  function RatingIds(fields: seq<SheetField>): (ids: seq<string>)
    ensures forall id :: id in ids <==> exists f :: f in fields && f.id == id && f.fieldType == Some(Rating)
  {
    if fields == [] then []
    else
      var f := fields[0];
      assert forall g :: g in fields <==> g == f || g in fields[1..];
      (if f.fieldType == Some(Rating) then [f.id] else []) + RatingIds(fields[1..])
  }

  /** The essay template. */
  const EssaiFields: seq<SheetField> :=
    [ Plain("pourquoi_lu", "Pourquoi j’ai lu ce livre", "Contexte perso, pro, intellectuel."),
      Plain("probleme_traite", "Problème traité", "La question centrale que l’auteur adresse."),
      Plain("these_auteur", "Thèse / position de l’auteur", "Ce qu’il défend réellement (pas le résumé marketing)."),
      Plain("idees_cles", "Idées ou concepts clés", "3 à 5 max, nommés clairement."),
      Plain("resume_structure", "Résumé structuré", "Comment l’argumentation se déroule."),
      Plain("ce_que_je_garde", "Ce que je garde", "Ce que tu intègres à ta pensée."),
      Plain("ce_que_je_conteste", "Ce que je conteste / nuance", "Limites, angles morts, désaccords."),
      Plain("questions_ouvertes", "Questions ouvertes", "Ce que le livre laisse irrésolu."),
      SheetField("note_globale", "Note globale", Some("Sur 5."), Some(Rating), None),
      Plain("recommandation", "Recommandation", "À qui, dans quel contexte.") ]

  /** The novel/history template. */
  const RomanFields: seq<SheetField> :=
    [ Plain("pourquoi_choisi", "Pourquoi j’ai choisi ce livre", "Hasard, conseil, envie précise, moment de vie."),
      Plain("resume_sans_spoiler", "Résumé sans spoiler", "L’essentiel de l’intrigue, sans trahir l’expérience."),
      Plain("themes_principaux", "Thèmes principaux", "Ce dont le livre parle vraiment (au-delà de l’histoire)."),
      Plain("personnages_marquants", "Personnages marquants", "Un ou deux, pas une liste Wikipédia."),
      Plain("atmosphere_ton", "Atmosphère / ton", "Ce que le livre dégage : rythme, ambiance, style."),
      Plain("ce_qui_ma_touche", "Ce qui m’a touchée", "Scènes, émotions, résonances personnelles."),
      Plain("ce_qui_ma_moins_convaincue", "Ce qui m’a moins convaincue", "Longueurs, choix narratifs, style, fin, etc."),
      Plain("images_ou_idees", "Images ou idées qui restent", "Ce qui continue de vivre après la lecture."),
      Plain("relire_pourquoi", "Est-ce que je le relirais ?", "Pourquoi / quand.") ]

  /** The essay template has ten fields with distinct ids; its only rating is the overall mark. */
  lemma EssaiTemplate()
    ensures |EssaiFields| == 10
    ensures Distinct(FieldIds(EssaiFields))
    ensures RatingIds(EssaiFields) == ["note_globale"]
  {
    EssaiIds();
    EssaiRatings();
  }

  lemma EssaiIds()
    ensures Distinct(FieldIds(EssaiFields))
  {
  }

  lemma EssaiRatings()
    ensures RatingIds(EssaiFields) == ["note_globale"]
  {
    RatingIdsOnly(EssaiFields, 8);
  }

  /** A template without rating fields has no rating ids. */
  lemma {:induction false} RatingIdsNone(fields: seq<SheetField>)
    requires forall i :: 0 <= i < |fields| ==> fields[i].fieldType != Some(Rating)
    ensures RatingIds(fields) == []
  {
    if fields != [] {
      assert forall i :: 0 <= i < |fields[1..]| ==> fields[1..][i] == fields[i + 1];
      RatingIdsNone(fields[1..]);
    }
  }

  /** A template whose only rating field is the `k`-th has that field's id as its only rating id. */
  lemma {:induction false} RatingIdsOnly(fields: seq<SheetField>, k: int)
    requires 0 <= k < |fields| && fields[k].fieldType == Some(Rating)
    requires forall i :: 0 <= i < |fields| && i != k ==> fields[i].fieldType != Some(Rating)
    ensures RatingIds(fields) == [fields[k].id]
  {
    assert forall i :: 0 <= i < |fields[1..]| ==> fields[1..][i] == fields[i + 1];
    if k == 0 {
      RatingIdsNone(fields[1..]);
    } else {
      RatingIdsOnly(fields[1..], k - 1);
    }
  }

  /** The novel/history template has nine fields with distinct ids and no rating. */
  lemma RomanTemplate()
    ensures |RomanFields| == 9
    ensures Distinct(FieldIds(RomanFields))
    ensures RatingIds(RomanFields) == []
  {
    RomanIds();
    RomanRatings();
  }

  lemma RomanIds()
    ensures Distinct(FieldIds(RomanFields))
  {
  }

  lemma RomanRatings()
    ensures RatingIds(RomanFields) == []
  {
    forall i | 0 <= i < |RomanFields|
      ensures RomanFields[i].fieldType != Some(Rating)
    {
      RomanUntyped(i);
    }
    RatingIdsNone(RomanFields);
  }

  /** No field of the novel/history template is a rating. */
  lemma RomanUntyped(i: int)
    requires 0 <= i < |RomanFields|
    ensures RomanFields[i].fieldType != Some(Rating)
  {
  }
}
