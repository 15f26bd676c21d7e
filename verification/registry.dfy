/** The keyword registry of the XSF format: the alias table, the tag-to-type
    table, the tag-to-flags table and the two reserved-name lists held by the
    `Internal` object, plus the parse-strictness enumeration. */
module Registry {
  import opened Wrappers

  /** Strictness of error handling during parsing (`XSFParseLevel`). Only the
      enumeration exists; no behaviour is attached to it in this core. */
  datatype ParseLevel = Strict | Warning | Lenient

  /** The host classes a keyword stands for, abstracted to an enumeration. */
  datatype SemanticType =
    | ObjectType | StringType | BooleanType | IntType | ShortType
    | LongType | DoubleType | CharType | MapType | HashMapType

  /** The flags of `XSFKeywordFlag`, each tied to its bit value. */
  datatype KeywordFlag = NoFlag | Skip | Collection | Typed {
    /** The enum's `value`: NONE is 0, and every other flag one of the three low bits. */
    function Value(): (v: bv8)
      ensures v & 0xF8 == 0
      ensures v & (v - 1) == 0
      ensures v == 0 <==> this == NoFlag
    {
      match this
      case NoFlag => 0x00
      case Skip => 0x01
      case Collection => 0x02
      case Typed => 0x04
    }
  }

  /** A flag is present in a mask when its bit is set; the empty flag is never present. */
  predicate HasFlag(mask: bv8, f: KeywordFlag): (b: bool)
    ensures b ==> f != NoFlag
    ensures f != NoFlag ==> (b <==> mask & f.Value() == f.Value())
  {
    mask & f.Value() != 0
  }

  /** The bitwise OR of a list of flags, as `keywordFlags` writes `A.value or B.value`. */
  function Combine(fs: seq<KeywordFlag>): (r: bv8)
    ensures r & 0xF8 == 0
    ensures forall i :: 0 <= i < |fs| ==> r & fs[i].Value() == fs[i].Value()
  {
    if |fs| == 0 then 0 else fs[0].Value() | Combine(fs[1..])
  }

  /** Host type names that are spelled differently in XSF (`keywordConversions`). */
  const KeywordConversions: map<string, string> := map[
    "Map" := "NamedMap",
    "HashMap" := "NamedHMap"
  ]

  /** Every XSF keyword and the type it denotes (`keywords`). */
  const Keywords: map<string, SemanticType> := map[
    "Object" := ObjectType,
    "String" := StringType,
    "Bool" := BooleanType,
    "Int" := IntType,
    "Short" := ShortType,
    "Long" := LongType,
    "Double" := DoubleType,
    "Char" := CharType,
    "NamedMap" := MapType,
    "NamedHMap" := HashMapType
  ]

  /** The parsing flags of each keyword (`keywordFlags`). */
  const KeywordFlags: map<string, bv8> := map[
    "Object" := Combine([Skip]),
    "String" := Combine([NoFlag]),
    "Bool" := Combine([NoFlag]),
    "Int" := Combine([NoFlag]),
    "Short" := Combine([NoFlag]),
    "Long" := Combine([NoFlag]),
    "Double" := Combine([NoFlag]),
    "Char" := Combine([NoFlag]),
    "NamedMap" := Combine([Collection, Typed]),
    "NamedHMap" := Combine([Collection, Typed]),
    "Group" := Combine([Collection, Typed])
  ]

  /** Host member names skipped during parsing (`parseMask`). */
  const ParseMask: seq<string> := ["equals", "hashCode", "toString"]

  /** The structural punctuation of the format (`specialChars`). */
  const SpecialChars: seq<string> := [":", "{", "}", ","]

  const ScalarTags: set<string> := {"String", "Bool", "Int", "Short", "Long", "Double", "Char"}
  const CollectionTags: set<string> := {"NamedMap", "NamedHMap", "Group"}

  /** Replaces a host type name by its XSF spelling; other names pass through. */
  function ResolveAlias(name: string): (r: string)
    ensures name in KeywordConversions ==> r == KeywordConversions[name] && r in Keywords
    ensures name == "Map" ==> r == "NamedMap"
    ensures name == "HashMap" ==> r == "NamedHMap"
    ensures name !in KeywordConversions ==> r == name
    ensures r !in KeywordConversions
  {
    if name in KeywordConversions then KeywordConversions[name] else name
  }

  /** The type a tag denotes, absent for an unregistered tag. */
  function TypeOf(tag: string): (r: Option<SemanticType>)
    ensures r.Some? <==> tag in Keywords
    ensures r.Some? ==> r.value == Keywords[tag]
  {
    if tag in Keywords then Some(Keywords[tag]) else None
  }

  /** The flags of a tag, absent for an unregistered tag. */
  function FlagsOf(tag: string): (r: Option<bv8>)
    ensures r.Some? <==> tag in KeywordFlags
    ensures r.Some? ==> r.value & 0xF8 == 0
  {
    if tag in KeywordFlags then Some(KeywordFlags[tag]) else None
  }

  /** NONE, SKIP, COLLECTION and TYPED are 0, 1, 2 and 4: each non-empty flag
      is one bit, and distinct flags share no bit. */
  lemma FlagBitsDisjoint(f: KeywordFlag, g: KeywordFlag)
    ensures NoFlag.Value() == 0 && Skip.Value() == 1 && Collection.Value() == 2 && Typed.Value() == 4
    ensures f != NoFlag ==> f.Value() != 0 && f.Value() & (f.Value() - 1) == 0
    ensures f != g ==> f.Value() & g.Value() == 0
  {
  }

  /** OR-ing flags and then testing one recovers exactly the non-empty flags that were OR-ed. */
  lemma {:induction false} HasFlagCombine(fs: seq<KeywordFlag>, f: KeywordFlag)
    ensures HasFlag(Combine(fs), f) <==> f != NoFlag && f in fs
  {
    if |fs| > 0 {
      HasFlagCombine(fs[1..], f);
      assert fs == [fs[0]] + fs[1..];
      assert f in fs <==> f == fs[0] || f in fs[1..];
    }
  }

  /** Every alias target is a registered keyword; no alias source is a keyword or a target. */
  lemma AliasTableWellFormed()
    ensures forall a :: a in KeywordConversions ==> KeywordConversions[a] in Keywords
    ensures forall a :: a in KeywordConversions ==> a !in Keywords
    ensures forall a :: a in KeywordConversions ==> a !in KeywordConversions.Values
  {
  }

  /** Resolving an alias twice is the same as resolving it once. */
  lemma ResolveAliasIdempotent(name: string)
    ensures ResolveAlias(ResolveAlias(name)) == ResolveAlias(name)
  {
  }

  /** A host map name resolves to a keyword that has a type and is a typed collection. */
  lemma AliasResolvesToTypedCollection(name: string)
    requires name in KeywordConversions
    ensures TypeOf(ResolveAlias(name)).Some?
    ensures FlagsOf(ResolveAlias(name)) == Some(Combine([Collection, Typed]))
    ensures HasFlag(FlagsOf(ResolveAlias(name)).value, Typed)
  {
  }

  /** The scalar keywords and "Object" denote their host types. */
  lemma ScalarKeywordTypes()
    ensures TypeOf("Object") == Some(ObjectType) && TypeOf("String") == Some(StringType)
    ensures TypeOf("Bool") == Some(BooleanType) && TypeOf("Int") == Some(IntType)
    ensures TypeOf("Short") == Some(ShortType) && TypeOf("Long") == Some(LongType)
    ensures TypeOf("Double") == Some(DoubleType) && TypeOf("Char") == Some(CharType)
  {
  }

  /** The host names `Map` and `HashMap` reach the map types through their
      aliases, and "Group" has no type. */
  lemma MapKeywordTypes()
    ensures TypeOf(ResolveAlias("Map")) == Some(MapType)
    ensures TypeOf(ResolveAlias("HashMap")) == Some(HashMapType)
    ensures TypeOf("Group") == None
  {
  }

  /** No two keywords denote the same type, so a type names its keyword. */
  lemma KeywordTypesDistinct(s: string, t: string)
    requires s in Keywords && t in Keywords
    requires TypeOf(s) == TypeOf(t)
    ensures s == t
  {
  }

  /** Every keyword has flags, and "Group" is the only flagged tag without a type. */
  lemma KeywordTablesAgree()
    ensures Keywords.Keys <= KeywordFlags.Keys
    ensures KeywordFlags.Keys - Keywords.Keys == {"Group"}
  {
    forall t | t in KeywordFlags.Keys - Keywords.Keys
      ensures t == "Group"
    {
    }
    assert "Group" in KeywordFlags;
    assert "Group" !in Keywords;
  }

  /** The flag table as numbers: "Object" is 1, the scalar tags 0, and the
      collection tags 6 (`COLLECTION.value or TYPED.value`). */
  lemma FlagTableValues()
    ensures FlagsOf("Object") == Some(0x01)
    ensures forall t :: t in ScalarTags ==> FlagsOf(t) == Some(0x00)
    ensures FlagsOf("NamedMap") == Some(0x06) && FlagsOf("NamedHMap") == Some(0x06) && FlagsOf("Group") == Some(0x06)
  {
  }

  /** The flag table's shape: "Object" only skips, scalars carry nothing,
      collections are typed, SKIP never meets COLLECTION and TYPED implies COLLECTION. */
  lemma FlagTableShape()
    ensures FlagsOf("Object") == Some(Skip.Value())
    ensures forall t :: t in ScalarTags ==> FlagsOf(t) == Some(NoFlag.Value())
    ensures forall t :: t in CollectionTags ==> FlagsOf(t) == Some(Collection.Value() | Typed.Value())
    ensures forall t :: t in KeywordFlags ==>
      !(HasFlag(KeywordFlags[t], Skip) && HasFlag(KeywordFlags[t], Collection))
    ensures forall t :: t in KeywordFlags && HasFlag(KeywordFlags[t], Typed) ==>
      HasFlag(KeywordFlags[t], Collection)
  {
  }

  /** The punctuation list is exactly the four delimiters, and it shares no name
      with the keywords or the reserved member names. */
  lemma ReservedNamesDisjoint()
    ensures SpecialChars == [":", "{", "}", ","]
    ensures forall i :: 0 <= i < |SpecialChars| ==> |SpecialChars[i]| == 1
    ensures forall i :: 0 <= i < |SpecialChars| ==>
      SpecialChars[i] !in Keywords && SpecialChars[i] !in KeywordFlags && SpecialChars[i] !in ParseMask
    ensures forall i :: 0 <= i < |ParseMask| ==> ParseMask[i] !in KeywordFlags
    ensures ParseMask == ["equals", "hashCode", "toString"]
  {
  }
}
