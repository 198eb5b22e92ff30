/** The static table that gives each creature type the background class of its badge. */
module TypeColors {

  /** The class used for a type name the table does not list. */
  const DefaultColor: string := "bg-gray-400"

  /** The eighteen known type names and their badge classes. */
  const Table: map<string, string> := map[
    "fire" := "bg-red-500",
    "water" := "bg-blue-500",
    "grass" := "bg-green-500",
    "electric" := "bg-yellow-400",
    "ice" := "bg-blue-200",
    "fighting" := "bg-orange-600",
    "poison" := "bg-purple-500",
    "ground" := "bg-yellow-600",
    "flying" := "bg-indigo-300",
    "psychic" := "bg-pink-500",
    "bug" := "bg-lime-500",
    "rock" := "bg-gray-600",
    "ghost" := "bg-indigo-700",
    "dragon" := "bg-purple-700",
    "dark" := "bg-gray-800",
    "steel" := "bg-gray-400",
    "fairy" := "bg-pink-300",
    "normal" := "bg-gray-300"
  ]

  /** `typeColors[name] || "bg-gray-400"`: the table entry when it is present and
      non-empty, the default otherwise. Every listed class is non-empty, so the
      fallback is taken exactly for names the table does not list. */
  function TypeColor(typeName: string): (color: string)
    ensures typeName in Table ==> color == Table[typeName]
    ensures typeName !in Table ==> color == DefaultColor
  {
    if typeName in Table && Table[typeName] != "" then Table[typeName] else DefaultColor
  }

  /** The eighteen names the table lists, in table order: the first nine and
      the last nine. Counting the two halves separately keeps the proof that
      the table has eighteen entries small. */
  const FirstNine: set<string> := {"fire", "water", "grass", "electric", "ice", "fighting", "poison", "ground", "flying"}
  const LastNine: set<string> := {"psychic", "bug", "rock", "ghost", "dragon", "dark", "steel", "fairy", "normal"}
  const TypeNames: set<string> := FirstNine + LastNine

  /** The table's keys are exactly these eighteen names. */
  lemma TableKeys()
    ensures Table.Keys == TypeNames
  {
  }

  lemma FirstNineCount()
    ensures |FirstNine| == 9
  {
  }

  lemma LastNineCount()
    ensures |LastNine| == 9
  {
  }

  lemma HalvesDisjoint()
    ensures FirstNine !! LastNine
  {
  }

  /** The eighteen names are distinct. */
  lemma TypeNamesCount()
    ensures |TypeNames| == 18
  {
    FirstNineCount();
    LastNineCount();
    HalvesDisjoint();
  }

  /** The table has eighteen entries. */
  lemma TableSize()
    ensures |Table| == 18
  {
    TableKeys();
    TypeNamesCount();
  }

  /** Every badge class is one of the table's classes: the default is itself
      the class listed for "steel". */
  lemma TypeColorInTable(typeName: string)
    ensures TypeColor(typeName) in Table.Values
  {
    assert Table["steel"] == DefaultColor;
  }

  /** Distinct listed types get distinct classes. */
  lemma TableInjective(a: string, b: string)
    requires a in Table && b in Table && a != b
    ensures TypeColor(a) != TypeColor(b)
  {
  }

  /** The colouring is not injective over all names: "steel" is the only listed
      type whose class is the default, so it shares its badge with every unknown type. */
  lemma SteelLooksUnknown(typeName: string)
    ensures TypeColor(typeName) == DefaultColor <==> typeName == "steel" || typeName !in Table
  {
  }
}
