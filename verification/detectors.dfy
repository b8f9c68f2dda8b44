/**
 The two detectors `maskPII` and `containsPII` consult, as inputs: the
 compromise entity recognizer (asked for people, organizations, places,
 dates and money, in that order) and the `BASIC_PATTERNS` regular
 expressions (asked in declaration order). Both are asked about the
 original text. The stream of hits the masking fold walks is built here.
 */
module Detectors {
  import opened Wrappers
  import opened Strings
  import opened Placeholder

  /** The compromise tags the engine matches (`#Person+`, `#Organization+`, ...). */
  datatype EntityTag = Person | Organization | Place | Date | Money

  /** The order in which `maskPII` walks the entity categories. */
  const EntityOrder: seq<EntityTag> := [Person, Organization, Place, Date, Money]

  /** The placeholder type each entity category is minted under. */
  function EntityType(tag: EntityTag): string {
    match tag
    case Person => "PERSON"
    case Organization => "ORG"
    case Place => "LOCATION"
    case Date => "DATE"
    case Money => "MONEY"
  }

  /** The keys of `BASIC_PATTERNS`, in declaration order. */
  const PatternKeys: seq<string> :=
    ["email", "phone", "ssn", "creditCard", "money", "bankAccount", "ipAddress", "url", "passport", "license"]

  /** Every placeholder type the engine can mint. */
  const KnownTypes: set<string> :=
    {"PERSON", "ORG", "LOCATION", "DATE", "MONEY", "EMAIL", "PHONE", "SSN", "CREDITCARD",
     "BANKACCOUNT", "IPADDRESS", "URL", "PASSPORT", "LICENSE"}

  /**
   The detectors as oracles. `recognize(text)` is `nlp(text)` followed by
   `doc.match('#Tag+')` for each tag, giving the matched texts in document
   order, or None when the library throws. `patterns(key, text)` is the
   list of whole matches of `BASIC_PATTERNS[key]` over `text`.
   */
  datatype Detectors = Detectors(
    recognize: string -> Option<EntityTag -> seq<string>>,
    patterns: (string, string) -> seq<string>)

  /** A detected value and the placeholder type it would be minted under. */
  datatype Hit = Hit(typ: string, value: string)

  function HitsOfType(typ: string, values: seq<string>): (r: seq<Hit>)
    ensures |r| == |values|
    ensures forall i :: 0 <= i < |r| ==> r[i] == Hit(typ, values[i])
    decreases |values|
  {
    if |values| == 0 then [] else [Hit(typ, values[0])] + HitsOfType(typ, values[1..])
  }

  /** The recognizer's hits, category by category in the given order. */
  function EntityHits(found: EntityTag -> seq<string>, tags: seq<EntityTag>): seq<Hit>
    decreases |tags|
  {
    if |tags| == 0 then []
    else HitsOfType(EntityType(tags[0]), found(tags[0])) + EntityHits(found, tags[1..])
  }

  /** Every recognizer hit is typed after one of the categories asked for. */
  lemma {:induction false} EntityHitTypes(found: EntityTag -> seq<string>, tags: seq<EntityTag>)
    ensures forall h :: h in EntityHits(found, tags) ==> exists tag :: tag in tags && h.typ == EntityType(tag)
    decreases |tags|
  {
    if |tags| > 0 {
      EntityHitTypes(found, tags[1..]);
      var head := HitsOfType(EntityType(tags[0]), found(tags[0]));
      forall h | h in EntityHits(found, tags)
        ensures exists tag :: tag in tags && h.typ == EntityType(tag)
      {
        if h in head {
          assert tags[0] in tags;
        } else {
          var tag :| tag in tags[1..] && h.typ == EntityType(tag);
          assert tag in tags;
        }
      }
    }
  }

  /** The recognizer contributes no hit exactly when no category asked for has a match. */
  lemma {:induction false} EntityHitsEmpty(found: EntityTag -> seq<string>, tags: seq<EntityTag>)
    ensures |EntityHits(found, tags)| == 0 <==> !AnyEntity(found, tags)
    decreases |tags|
  {
    if |tags| > 0 {
      EntityHitsEmpty(found, tags[1..]);
      assert forall tag :: tag in tags <==> tag == tags[0] || tag in tags[1..];
    }
  }

  /** The regular-expression hits over `text`, key by key in the given order, typed `key.toUpperCase()`. */
  function PatternHits(det: Detectors, text: string, keys: seq<string>): seq<Hit>
    decreases |keys|
  {
    if |keys| == 0 then []
    else HitsOfType(ToUpperAscii(keys[0]), det.patterns(keys[0], text)) + PatternHits(det, text, keys[1..])
  }

  /** Every pattern hit is typed after the upper-cased key of one of the patterns asked for. */
  lemma {:induction false} PatternHitTypes(det: Detectors, text: string, keys: seq<string>)
    ensures forall h :: h in PatternHits(det, text, keys) ==> exists key :: key in keys && h.typ == ToUpperAscii(key)
    decreases |keys|
  {
    if |keys| > 0 {
      PatternHitTypes(det, text, keys[1..]);
      var head := HitsOfType(ToUpperAscii(keys[0]), det.patterns(keys[0], text));
      forall h | h in PatternHits(det, text, keys)
        ensures exists key :: key in keys && h.typ == ToUpperAscii(key)
      {
        if h in head {
          assert keys[0] in keys;
        } else {
          var key :| key in keys[1..] && h.typ == ToUpperAscii(key);
          assert key in keys;
        }
      }
    }
  }

  /** The patterns contribute no hit exactly when none of the patterns asked for matches. */
  lemma {:induction false} PatternHitsEmpty(det: Detectors, text: string, keys: seq<string>)
    ensures |PatternHits(det, text, keys)| == 0 <==> !AnyPattern(det, text, keys)
    decreases |keys|
  {
    if |keys| > 0 {
      PatternHitsEmpty(det, text, keys[1..]);
      assert forall key :: key in keys <==> key == keys[0] || key in keys[1..];
    }
  }

  /**
   Everything `maskPII` processes, in the order it processes it: the
   recognizer's hits (none when it threw), then the pattern hits, all taken
   from the original text.
   */
  function HitStream(det: Detectors, text: string): seq<Hit> {
    var entities := match det.recognize(text)
      case None => []
      case Some(found) => EntityHits(found, EntityOrder);
    entities + PatternHits(det, text, PatternKeys)
  }

  /** The upper-cased pattern keys are the regular-expression types. */
  lemma PatternTypes()
    ensures forall key :: key in PatternKeys ==> ToUpperAscii(key) in KnownTypes
  {
    UpperKeysFirst();
    UpperKeysLast();
  }

  lemma UpperKeysFirst()
    ensures ToUpperAscii("email") == "EMAIL" && ToUpperAscii("phone") == "PHONE" && ToUpperAscii("ssn") == "SSN"
    ensures ToUpperAscii("creditCard") == "CREDITCARD" && ToUpperAscii("money") == "MONEY"
  {
    assert ToUpperAscii("email") == "EMAIL";
    assert ToUpperAscii("phone") == "PHONE";
    assert ToUpperAscii("ssn") == "SSN";
    assert ToUpperAscii("creditCard") == "CREDITCARD";
    assert ToUpperAscii("money") == "MONEY";
  }

  lemma UpperKeysLast()
    ensures ToUpperAscii("bankAccount") == "BANKACCOUNT" && ToUpperAscii("ipAddress") == "IPADDRESS"
    ensures ToUpperAscii("url") == "URL" && ToUpperAscii("passport") == "PASSPORT" && ToUpperAscii("license") == "LICENSE"
  {
    assert ToUpperAscii("bankAccount") == "BANKACCOUNT";
    assert ToUpperAscii("ipAddress") == "IPADDRESS";
    assert ToUpperAscii("url") == "URL";
    assert ToUpperAscii("passport") == "PASSPORT";
    assert ToUpperAscii("license") == "LICENSE";
  }

  /** Every known type is a type name the token grammar accepts. */
  lemma KnownTypesAreValid()
    ensures forall t :: t in KnownTypes ==> ValidTypeName(t)
  {
    EntityTypeNamesAreValid();
    PatternTypeNamesAreValid();
  }

  lemma EntityTypeNamesAreValid()
    ensures ValidTypeName("PERSON") && ValidTypeName("ORG") && ValidTypeName("LOCATION")
    ensures ValidTypeName("DATE") && ValidTypeName("MONEY")
  {
    assert ValidTypeName("PERSON") && ValidTypeName("ORG") && ValidTypeName("LOCATION");
    assert ValidTypeName("DATE") && ValidTypeName("MONEY");
  }

  lemma PatternTypeNamesAreValid()
    ensures ValidTypeName("EMAIL") && ValidTypeName("PHONE") && ValidTypeName("SSN") && ValidTypeName("CREDITCARD")
    ensures ValidTypeName("BANKACCOUNT") && ValidTypeName("IPADDRESS") && ValidTypeName("URL")
    ensures ValidTypeName("PASSPORT") && ValidTypeName("LICENSE")
  {
    assert ValidTypeName("EMAIL") && ValidTypeName("PHONE") && ValidTypeName("SSN") && ValidTypeName("CREDITCARD");
    assert ValidTypeName("BANKACCOUNT") && ValidTypeName("IPADDRESS") && ValidTypeName("URL");
    assert ValidTypeName("PASSPORT") && ValidTypeName("LICENSE");
  }

  /** Every entity category is minted under a known type. */
  lemma EntityTypesAreKnown(tag: EntityTag)
    ensures EntityType(tag) in KnownTypes
  {
  }

  /** Every type in the hit stream is a known type, and so a valid type name. */
  lemma HitTypesAreKnown(det: Detectors, text: string)
    ensures forall h :: h in HitStream(det, text) ==> h.typ in KnownTypes && ValidTypeName(h.typ)
  {
    PatternTypes();
    KnownTypesAreValid();
    PatternHitTypes(det, text, PatternKeys);
    if det.recognize(text).Some? {
      EntityHitTypes(det.recognize(text).value, EntityOrder);
    }
    var entities := match det.recognize(text)
      case None => []
      case Some(found) => EntityHits(found, EntityOrder);
    var patterns := PatternHits(det, text, PatternKeys);
    assert HitStream(det, text) == entities + patterns;
    forall h | h in entities
      ensures h.typ in KnownTypes
    {
      var tag :| tag in EntityOrder && h.typ == EntityType(tag);
      EntityTypesAreKnown(tag);
    }
    forall h | h in patterns
      ensures h.typ in KnownTypes
    {
      var key :| key in PatternKeys && h.typ == ToUpperAscii(key);
    }
  }

  /**
   `containsPII(text)`: false for blank text; otherwise true when the
   recognizer finds any category, or (also after the recognizer throws) when
   any pattern matches.
   */
  function ContainsPII(det: Detectors, text: string): bool {
    if IsBlank(text) then false
    else
      match det.recognize(text)
      case None => AnyPattern(det, text, PatternKeys)
      case Some(found) => AnyEntity(found, EntityOrder) || AnyPattern(det, text, PatternKeys)
  }

  /** Some category among `tags` has a match. */
  predicate AnyEntity(found: EntityTag -> seq<string>, tags: seq<EntityTag>) {
    exists tag :: tag in tags && |found(tag)| > 0
  }

  /** Some pattern among `keys` matches `text`. */
  predicate AnyPattern(det: Detectors, text: string, keys: seq<string>) {
    exists key :: key in keys && |det.patterns(key, text)| > 0
  }

  /** `containsPII` answers yes exactly when `maskPII` would have a hit to process. */
  lemma ContainsPIIIffHits(det: Detectors, text: string)
    ensures ContainsPII(det, text) <==> !IsBlank(text) && |HitStream(det, text)| > 0
  {
    PatternHitsEmpty(det, text, PatternKeys);
    if det.recognize(text).Some? {
      EntityHitsEmpty(det.recognize(text).value, EntityOrder);
    }
  }
}
