/**
 * The closed-set field mappers of scripts/procesar_eventos.py and
 * scripts/clasificar_eventos_culturales.py: a case-insensitive,
 * first-match-wins substring scan over a fixed ordered list, with a
 * fallback chosen per field.
 */
module Mappers {
  import opened Base
  import opened Text
  import opened Frames

  /** `entry.lower() in text.lower()` */
  predicate Matches(entry: string, text: string) {
    Contains(Lower(text), Lower(entry))
  }

  /** Position of the first entry of `list` that matches `text`. */
  function FirstMatch(list: seq<string>, text: string): (r: Option<nat>)
    ensures r.Some? ==> r.value < |list| && Matches(list[r.value], text)
    ensures r.Some? ==> forall j :: 0 <= j < r.value ==> !Matches(list[j], text)
    ensures r.None? ==> forall j :: 0 <= j < |list| ==> !Matches(list[j], text)
  {
    if |list| == 0 then None
    else if Matches(list[0], text) then Some(0)
    else match FirstMatch(list[1..], text)
      case None => None
      case Some(i) => Some(i + 1)
  }

  /**
   * What the scan promises, stated without the scan: `r` is the earliest
   * matching entry, or the fallback when no entry matches.
   */
  ghost predicate IsScanResult(list: seq<string>, fallback: string, text: string, r: string) {
    || (exists i :: 0 <= i < |list| && Matches(list[i], text) && r == list[i]
                    && forall j :: 0 <= j < i ==> !Matches(list[j], text))
    || ((forall j :: 0 <= j < |list| ==> !Matches(list[j], text)) && r == fallback)
  }

  /** `for entry in list: if entry.lower() in text.lower(): return entry` then `return fallback`. */
  function Scan(list: seq<string>, fallback: string, text: string): (r: string)
    ensures IsScanResult(list, fallback, text, r)
    ensures r in list || r == fallback
  {
    match FirstMatch(list, text)
    case Some(i) => list[i]
    case None => fallback
  }

  /** The scan's answer is the only one the specification allows when the list has no repeats. */
  lemma ScanUnique(list: seq<string>, fallback: string, text: string, r: string)
    requires IsScanResult(list, fallback, text, r)
    ensures r == Scan(list, fallback, text)
  {
    var s := Scan(list, fallback, text);
    if i :| 0 <= i < |list| && Matches(list[i], text) && r == list[i] && forall j :: 0 <= j < i ==> !Matches(list[j], text) {
      var k := FirstMatch(list, text).value;
      assert !(k < i) && !(i < k);
    }
  }

  // ------------------------------------------------- scripts/procesar_eventos.py

  const EventTypes: seq<string> := [
    "Asamblea", "Conferencia", "Congreso", "Convención", "Encuentro", "Foro", "Jornada",
    "Seminario", "Simposio", "Exposición", "Feria", "Workshop", "Evento Deportivo Internacional",
    "Incentivo", "Evento Cultural", "Evento Deportivo Nacional", "Otro tipo de evento"
  ]

  /** `mapear_tipo_evento` (congress pipeline). */
  function MapEventType(text: string): (r: string)
    ensures IsScanResult(EventTypes, "Otro tipo de evento", text, r)
    ensures r in EventTypes
  {
    assert EventTypes[16] == "Otro tipo de evento";
    Scan(EventTypes, "Otro tipo de evento", text)
  }

  const RotationDetails: seq<string> := [
    "Local", "Provincial", "Nacional - Regional (Patagonia)", "Nacional - Regional (NOA)",
    "Nacional - Regional (Litoral)", "Nacional - Regional (Centro)", "Nacional - Regional (Cuyo)",
    "Nacional", "Internacional - Iberoamérica", "Internacional - Panamérica", "Internacional - Latinoamérica",
    "Internacional - Sudamérica", "Internacional - Mercosur", "Internacional", "Único", "NS/NC"
  ]

  /** `mapear_detalle_rotacion` */
  function MapRotation(text: string): (r: string)
    ensures IsScanResult(RotationDetails, "NS/NC", text, r)
    ensures r in RotationDetails
  {
    assert RotationDetails[15] == "NS/NC";
    Scan(RotationDetails, "NS/NC", text)
  }

  /** When entry `k` is the first to match, the scan returns it. */
  lemma ScanPicks(list: seq<string>, fallback: string, text: string, k: nat)
    requires k < |list| && Matches(list[k], text)
    requires forall j :: 0 <= j < k ==> !Matches(list[j], text)
    ensures Scan(list, fallback, text) == list[k]
  {
    var i := FirstMatch(list, text).value;
    assert !(i < k) && !(k < i);
  }

  /** Every "Internacional…" rotation value contains "nacional" once lower-cased. */
  lemma InternacionalContainsNacional(e: string)
    requires |e| >= 13 && e[..13] == "Internacional"
    ensures Contains(Lower(e), Lower("Nacional"))
  {
    var s := Lower(e);
    assert Lower("Nacional") == "nacional";
    forall k | 0 <= k < 8 ensures s[5 + k] == "nacional"[k] {
      assert e[5 + k] == e[..13][5 + k] == "Internacional"[5 + k];
      if k == 0 {} else if k == 1 {} else if k == 2 {} else if k == 3 {}
      else if k == 4 {} else if k == 5 {} else if k == 6 {} else {}
    }
    OccursAtChars(s, "nacional", 5);
  }

  /**
   * "Nacional" (position 7) precedes every "Internacional…" value (positions
   * 8 to 13) and "nacional" is part of "internacional", so the scan can never
   * return one of them.
   */
  lemma RotationNeverInternacional(text: string)
    ensures forall j :: 8 <= j <= 13 ==> MapRotation(text) != RotationDetails[j]
  {
    var m := FirstMatch(RotationDetails, text);
    if m.Some? && 8 <= m.value <= 13 {
      InternacionalEntry(m.value);
      ContainsTrans(Lower(text), Lower(RotationDetails[m.value]), Lower("Nacional"));
      assert Matches(RotationDetails[7], text);
    }
    forall j | 8 <= j <= 13 ensures MapRotation(text) != RotationDetails[j] {
      if m.Some? {
        RotationDistinct(m.value, j);
      }
    }
  }

  /** The rotation values are pairwise different. */
  lemma RotationDistinct(i: nat, j: nat)
    requires i < |RotationDetails| && j < |RotationDetails| && i != j
    ensures RotationDetails[i] != RotationDetails[j]
  {
  }

  lemma InternacionalEntry(j: nat)
    requires 8 <= j <= 13
    ensures Contains(Lower(RotationDetails[j]), Lower("Nacional"))
  {
    assert RotationDetails[j][..13] == "Internacional";
    InternacionalContainsNacional(RotationDetails[j]);
  }

  /**
   * Text that mentions "internacional" (in any case) and none of the seven
   * local and regional values is classified "Nacional".
   */
  lemma InternacionalMapsToNacional(text: string)
    requires Matches("Internacional", text)
    requires forall j :: 0 <= j < 7 ==> !Matches(RotationDetails[j], text)
    ensures MapRotation(text) == "Nacional"
  {
    InternacionalImpliesNacional(text);
    ScanPicks(RotationDetails, "NS/NC", text, 7);
  }

  /** Whatever mentions "internacional" also matches the rotation value "Nacional". */
  lemma InternacionalImpliesNacional(text: string)
    requires Matches("Internacional", text)
    ensures Matches(RotationDetails[7], text)
  {
    var inter, nac := Lower("Internacional"), Lower(RotationDetails[7]);
    InternacionalContainsNacional("Internacional");
    assert Contains(inter, nac);
    ContainsTrans(Lower(text), inter, nac);
  }

  /** The bare value "Internacional" itself comes back as "Nacional". */
  lemma InternacionalValueMapsToNacional()
    ensures MapRotation("Internacional") == "Nacional"
  {
    forall j | 0 <= j < 7 ensures !Matches(RotationDetails[j], "Internacional") {
      InternacionalMissesLocal(j);
    }
    ContainsSelf(Lower("Internacional"));
    InternacionalMapsToNacional("Internacional");
  }

  /** "internacional" contains none of the seven local and regional values. */
  lemma InternacionalMissesLocal(j: nat)
    requires j < 7
    ensures !Matches(RotationDetails[j], "Internacional")
  {
    var s := Lower("Internacional");
    var t := Lower(RotationDetails[j]);
    if j == 0 {
      assert t[0] == 'l' && s[..9] == "internaci";
    } else if j == 1 {
      assert t[0] == 'p';
    } else {
      assert |t| > |s|;
    }
    NotContainedByStart(s, t);
  }

  const Topics: seq<string> := [
    "Acuático", "Agricultura y ganadería", "Ajedrez", "Alimentos", "Arquitectura",
    "Arte y diseño", "Artes marciales y peleas", "Automotores", "Básquet",
    "Bibliotecología", "Ciclismo", "Ciencias históricas y sociales", "Ciencias naturales y exactas",
    "Comercio", "Comunicación", "Cosmética y tratamientos estéticos", "Cultura", "Danza",
    "Deporte y ocio", "Derecho", "Diseño de indumentaria y moda", "Ecología y medio ambiente",
    "Economía", "Educación", "Energía", "Entretenimiento, parques y atracciones", "Farmacia",
    "Fisicoculturismo", "Fútbol", "Gastronomía", "Geografia", "Gobierno/Sindical", "Golf",
    "Handball", "Hockey", "Industria/Industrial", "Lingüística", "Literatura", "Logística",
    "Management y negocios", "Maratón", "Matemática y estadística", "Medicina", "Multideportes",
    "Multisectorial", "Ns/Nc", "Odontología", "Otro", "Packaging y regalería", "Polo",
    "Psicología", "Religión", "Rugby", "Seguridad", "Seguros", "Servicios", "Sóftbol",
    "Tecnología", "Tenis, paddel o paleta", "Tiro con arco y flecha", "Transporte",
    "Turismo y hotelería", "Veterinaria", "Vóley"
  ]

  /** `mapear_tema`: the first matching topic, or the extracted text itself. */
  function MapTopic(text: string): (r: string)
    ensures IsScanResult(Topics, text, text, r)
    ensures r in Topics || r == text
  {
    Scan(Topics, text, text)
  }

  // -------------------------------------- scripts/clasificar_eventos_culturales.py

  const CulturalTypes: seq<string> := [
    "Artes visuales", "Artes escénicas", "Música", "Cine y audiovisuales", "Literatura",
    "Patrimonio histórico", "Enoturismo", "Gastronomía", "Danza", "Teatro", "Circo",
    "Fotografía", "Artesanía", "Cultura tradicional", "Diseño", "Humor",
    "Talleres y formación", "Multidisciplinario", "Tecnología aplicada al arte",
    "Medio ambiente y arte", "Moda", "Otro"
  ]

  /** `mapear_tipo_evento` (cultural pipeline): its fallback is not one of its own values. */
  function MapCulturalType(text: string): (r: string)
    ensures IsScanResult(CulturalTypes, "Otro tipo de evento", text, r)
    ensures r in CulturalTypes || r == "Otro tipo de evento"
  {
    Scan(CulturalTypes, "Otro tipo de evento", text)
  }

  lemma CulturalFallbackNotListed()
    ensures "Otro tipo de evento" !in CulturalTypes
  {
  }

  /** Text that mentions "otro" and no earlier value is classified "Otro". */
  lemma OtroCatchesTheRest(text: string)
    requires Matches("Otro", text)
    requires forall j :: 0 <= j < 21 ==> !Matches(CulturalTypes[j], text)
    ensures MapCulturalType(text) == "Otro"
  {
    ScanPicks(CulturalTypes, "Otro tipo de evento", text, 21);
  }

  /** The cultural fallback, fed back to the mapper, becomes "Otro". */
  lemma CulturalFallbackRemaps()
    ensures MapCulturalType("Otro tipo de evento") == "Otro"
  {
    forall j | 0 <= j < 21 ensures !Matches(CulturalTypes[j], "Otro tipo de evento") {
      FallbackMissesValue(j);
    }
    assert Lower("Otro tipo de evento")[..4] == Lower("Otro");
    ContainsAt(Lower("Otro tipo de evento"), Lower("Otro"), 0);
    OtroCatchesTheRest("Otro tipo de evento");
  }

  /** Each of the first 21 cultural values has a letter that "otro tipo de evento" lacks. */
  lemma FallbackMissesValue(j: nat)
    requires j < 21
    ensures !Matches(CulturalTypes[j], "Otro tipo de evento")
  {
    var k :=
      if j == 5 || j == 8 || j == 16 then 1
      else if j == 9 || j == 14 || j == 18 then 2
      else if j == 6 then 4
      else 0;
    if j < 7 {
      MissingLetterLow(j, k);
    } else if j < 14 {
      MissingLetterMid(j, k);
    } else {
      MissingLetterHigh(j, k);
    }
    NotContainedByChar(Lower("Otro tipo de evento"), Lower(CulturalTypes[j]), k);
  }

  lemma MissingLetterLow(j: nat, k: nat)
    requires j < 7 && k == (if j == 5 then 1 else if j == 6 then 4 else 0)
    ensures k < |Lower(CulturalTypes[j])| && Lower(CulturalTypes[j])[k] !in Lower("Otro tipo de evento")
  {
  }

  lemma MissingLetterMid(j: nat, k: nat)
    requires 7 <= j < 14 && k == (if j == 8 then 1 else if j == 9 then 2 else 0)
    ensures k < |Lower(CulturalTypes[j])| && Lower(CulturalTypes[j])[k] !in Lower("Otro tipo de evento")
  {
  }

  lemma MissingLetterHigh(j: nat, k: nat)
    requires 14 <= j < 21 && k == (if j == 16 then 1 else if j == 14 || j == 18 then 2 else 0)
    ensures k < |Lower(CulturalTypes[j])| && Lower(CulturalTypes[j])[k] !in Lower("Otro tipo de evento")
  {
  }

  // ------------------------------------------------- the field of the decoded reply

  /**
   * A mapper applied to `datos.get(key, '')`. An absent key gives the
   * default "", a string is mapped, and every other decoded value,
   * falsy or not, reaches `valor_extraido.lower()` and raises: unlike
   * the date fields, no truthiness test comes first.
   */
  function OnText(field: Option<Cell>, mapper: string -> string): (r: Result<string>)
    ensures r.Raised? <==> field.Some? && !field.value.Str?
    ensures r.Raised? ==> r.error == AttributeError("lower")
    ensures field.None? ==> r == Returned(mapper(""))
    ensures field.Some? && field.value.Str? ==> r == Returned(mapper(field.value.s))
  {
    match field
    case None => Returned(mapper(""))
    case Some(Str(t)) => Returned(mapper(t))
    case Some(_) => Raised(AttributeError("lower"))
  }

  /** The text a mapper reads from the field when it does not raise. */
  function TextOf(field: Option<Cell>): string {
    if field.Some? && field.value.Str? then field.value.s else ""
  }

  /** `mapear_tipo_evento(datos.get('tipoEvento', ''))` (procesar_eventos.py:80). */
  function EventTypeField(field: Option<Cell>): (r: Result<string>)
    ensures r.Raised? <==> field.Some? && !field.value.Str?
    ensures r.Raised? ==> r.error == AttributeError("lower")
    ensures r.Returned? ==> IsScanResult(EventTypes, "Otro tipo de evento", TextOf(field), r.value)
    ensures r.Returned? ==> r.value in EventTypes
  {
    OnText(field, MapEventType)
  }

  /** `mapear_detalle_rotacion(datos.get('detalleTipoRotacion', ''))` (procesar_eventos.py:81). */
  function RotationField(field: Option<Cell>): (r: Result<string>)
    ensures r.Raised? <==> field.Some? && !field.value.Str?
    ensures r.Raised? ==> r.error == AttributeError("lower")
    ensures r.Returned? ==> IsScanResult(RotationDetails, "NS/NC", TextOf(field), r.value)
    ensures r.Returned? ==> r.value in RotationDetails
  {
    OnText(field, MapRotation)
  }

  /** `mapear_tema(datos.get('tema', ''))` (procesar_eventos.py:82). */
  function TopicField(field: Option<Cell>): (r: Result<string>)
    ensures r.Raised? <==> field.Some? && !field.value.Str?
    ensures r.Raised? ==> r.error == AttributeError("lower")
    ensures r.Returned? ==> IsScanResult(Topics, TextOf(field), TextOf(field), r.value)
    ensures r.Returned? ==> r.value in Topics || r.value == TextOf(field)
  {
    OnText(field, MapTopic)
  }

  /** `mapear_tipo_evento(datos.get('tematica', ''))` (clasificar_eventos_culturales.py:168). */
  function CulturalTypeField(field: Option<Cell>): (r: Result<string>)
    ensures r.Raised? <==> field.Some? && !field.value.Str?
    ensures r.Raised? ==> r.error == AttributeError("lower")
    ensures r.Returned? ==> IsScanResult(CulturalTypes, "Otro tipo de evento", TextOf(field), r.value)
    ensures r.Returned? ==> r.value in CulturalTypes || r.value == "Otro tipo de evento"
  {
    OnText(field, MapCulturalType)
  }

  /**
   * A key the reply leaves out is read as "": no entry is contained in
   * the empty text, so each mapper gives its fallback.
   */
  lemma AbsentFieldFallsBack()
    ensures EventTypeField(None) == Returned("Otro tipo de evento")
    ensures RotationField(None) == Returned("NS/NC")
    ensures TopicField(None) == Returned("")
    ensures CulturalTypeField(None) == Returned("Otro tipo de evento")
  {
    NoEmptyEntry(EventTypes);
    EmptyMatchesNothing(EventTypes, "Otro tipo de evento");
    NoEmptyEntry(RotationDetails);
    EmptyMatchesNothing(RotationDetails, "NS/NC");
    NoEmptyEntry(CulturalTypes);
    EmptyMatchesNothing(CulturalTypes, "Otro tipo de evento");
    ScanOfEmpty(Topics, "");
  }

  /** The three shorter lists hold no empty entry. */
  lemma NoEmptyEntry(list: seq<string>)
    requires list == EventTypes || list == RotationDetails || list == CulturalTypes
    ensures forall j :: 0 <= j < |list| ==> |list[j]| > 0
  {
  }

  /** Only the empty entry is contained in the empty text. */
  lemma ScanOfEmpty(list: seq<string>, fallback: string)
    ensures Scan(list, fallback, "") in {fallback, ""}
  {
    var m := FirstMatch(list, "");
    if m.Some? {
      assert Contains(Lower(""), Lower(list[m.value]));
      assert |Lower(list[m.value])| == 0;
    }
  }

  /**
   * A JSON `null` under the key is present, so the default "" does not
   * apply and every mapper raises, where the date fields give None.
   */
  lemma NullFieldRaises()
    ensures EventTypeField(Some(Null)) == Raised(AttributeError("lower"))
    ensures RotationField(Some(Null)) == Raised(AttributeError("lower"))
    ensures TopicField(Some(Null)) == Raised(AttributeError("lower"))
    ensures CulturalTypeField(Some(Null)) == Raised(AttributeError("lower"))
  {
  }

  /** The empty text contains no entry of a list without empty entries. */
  lemma EmptyMatchesNothing(list: seq<string>, fallback: string)
    requires forall j :: 0 <= j < |list| ==> |list[j]| > 0
    ensures Scan(list, fallback, "") == fallback
  {
    forall j | 0 <= j < |list| ensures !Matches(list[j], "") {
      assert |Lower(list[j])| > 0;
    }
  }
}
