/** The typed getters of ConfigSection.java. Each looks the path up with getSection,
    whose exception passes through, and answers the default when nothing is found.
    getInt, getShort and getBool read the first value of the found section's node
    inside a try block, so a missing node, an empty value list or an unparsable value
    gives the default too; getString, getStringList and isConfigurationSection have no
    such block and pass those exceptions on. */
module Getters {
  import opened JavaLang
  import opened ConfigTree

  /** getBaseNode().getValues().getFirst() on a found section. */
  function FirstValue(sec: Section): Result<string>
  {
    match sec.base
    case None => Err(NullPointer)
    case Some(n) => if n.values == [] then Err(NoSuchElement) else Ok(n.values[0])
  }

  /** The first stored value at `path`, when getSection finds a section there whose
      node has one. */
  function Stored(s: Section, path: string): Option<string>
  {
    match SectionAt(s, path)
    case Ok(Some(sec)) => (match FirstValue(sec) case Ok(v) => Some(v) case Err(_) => None)
    case _ => None
  }

  /** A stored value that reads as a decimal number within [lo, hi). */
  predicate ReadsAs(stored: Option<string>, lo: int, hi: int)
  {
    stored.Some? && ParseDecimal(stored.value).Some? && lo <= ParseDecimal(stored.value).value < hi
  }

  /** getInt(path, def): the stored number when it is an optionally signed decimal
      within 32 bits, the default otherwise. */
  function GetInt(s: Section, path: string, def: int32): (r: Result<int32>)
    ensures r.Err? <==> SectionAt(s, path).Err?
    ensures SectionAt(s, path).Err? ==> r == Err(SectionAt(s, path).error)
    ensures r.Ok? && ReadsAs(Stored(s, path), -0x8000_0000, 0x8000_0000) ==>
      r.value as int == ParseDecimal(Stored(s, path).value).value
    ensures r.Ok? && !ReadsAs(Stored(s, path), -0x8000_0000, 0x8000_0000) ==> r.value == def
  {
    match SectionAt(s, path)
    case Err(e) => Err(e)
    case Ok(None) => Ok(def)
    case Ok(Some(sec)) =>
      match FirstValue(sec)
      case Err(_) => Ok(def)
      case Ok(v) => Ok(match ParseInt32(v) case Some(x) => x case None => def)
  }

  /** getInt(path) is getInt(path, 0). */
  function GetIntOrZero(s: Section, path: string): (r: Result<int32>)
    ensures r.Err? <==> SectionAt(s, path).Err?
    ensures r.Ok? && ReadsAs(Stored(s, path), -0x8000_0000, 0x8000_0000) ==>
      r.value as int == ParseDecimal(Stored(s, path).value).value
    ensures r.Ok? && !ReadsAs(Stored(s, path), -0x8000_0000, 0x8000_0000) ==> r.value == 0
    ensures SectionAt(s, path).Err? ==> r == Err(SectionAt(s, path).error)
  {
    GetInt(s, path, 0)
  }

  /** getShort(path, def): the stored number when it is an optionally signed
      decimal within 16 bits, the default otherwise. */
  function GetShort(s: Section, path: string, def: int16): (r: Result<int16>)
    ensures r.Err? <==> SectionAt(s, path).Err?
    ensures SectionAt(s, path).Err? ==> r == Err(SectionAt(s, path).error)
    ensures r.Ok? && ReadsAs(Stored(s, path), -0x8000, 0x8000) ==>
      r.value as int == ParseDecimal(Stored(s, path).value).value
    ensures r.Ok? && !ReadsAs(Stored(s, path), -0x8000, 0x8000) ==> r.value == def
  {
    match SectionAt(s, path)
    case Err(e) => Err(e)
    case Ok(None) => Ok(def)
    case Ok(Some(sec)) =>
      match FirstValue(sec)
      case Err(_) => Ok(def)
      case Ok(v) => Ok(match ParseInt16(v) case Some(x) => x case None => def)
  }

  /** getShort(path) is getShort(path, 0). */
  function GetShortOrZero(s: Section, path: string): (r: Result<int16>)
    ensures r.Err? <==> SectionAt(s, path).Err?
    ensures r.Ok? && ReadsAs(Stored(s, path), -0x8000, 0x8000) ==>
      r.value as int == ParseDecimal(Stored(s, path).value).value
    ensures r.Ok? && !ReadsAs(Stored(s, path), -0x8000, 0x8000) ==> r.value == 0
    ensures SectionAt(s, path).Err? ==> r == Err(SectionAt(s, path).error)
  {
    GetShort(s, path, 0)
  }

  /** getBool(path, def): Boolean.valueOf of the stored value, which is true exactly
      for "true" in any case; the default only when there is no stored value. */
  function GetBool(s: Section, path: string, def: bool): (r: Result<bool>)
    ensures r.Err? <==> SectionAt(s, path).Err?
    ensures SectionAt(s, path).Err? ==> r == Err(SectionAt(s, path).error)
    ensures r.Ok? && Stored(s, path).Some? ==> (r.value <==> EqualsIgnoreCase(Stored(s, path).value, "true"))
    ensures r.Ok? && Stored(s, path).None? ==> r.value == def
  {
    match SectionAt(s, path)
    case Err(e) => Err(e)
    case Ok(None) => Ok(def)
    case Ok(Some(sec)) =>
      match FirstValue(sec)
      case Err(_) => Ok(def)
      case Ok(v) => Ok(EqualsIgnoreCase(v, "true"))
  }

  /** getBool(path) is getBool(path, false). */
  function GetBoolOrFalse(s: Section, path: string): (r: Result<bool>)
    ensures r.Err? <==> SectionAt(s, path).Err?
    ensures r.Ok? ==> (r.value <==> Stored(s, path).Some? && EqualsIgnoreCase(Stored(s, path).value, "true"))
    ensures SectionAt(s, path).Err? ==> r == Err(SectionAt(s, path).error)
  {
    GetBool(s, path, false)
  }

  /** getString(path, def): the stored value, the default when the path is absent;
      a found section without a node or without values raises. */
  function GetString(s: Section, path: string, def: string): (r: Result<string>)
    ensures SectionAt(s, path) == Ok(None) ==> r == Ok(def)
    ensures Stored(s, path).Some? ==> r == Ok(Stored(s, path).value)
    ensures r.Err? <==> SectionAt(s, path).Err? || (Stored(s, path).None? && SectionAt(s, path) != Ok(None))
    ensures SectionAt(s, path).Err? ==> r == Err(SectionAt(s, path).error)
    ensures r.Err? && SectionAt(s, path).Ok? && SectionAt(s, path).value.Some? ==>
      r == Err(if SectionAt(s, path).value.value.base.None? then NullPointer else NoSuchElement)
  {
    match SectionAt(s, path)
    case Err(e) => Err(e)
    case Ok(None) => Ok(def)
    case Ok(Some(sec)) => FirstValue(sec)
  }

  /** getString(path) is getString(path, ""). */
  function GetStringOrEmpty(s: Section, path: string): (r: Result<string>)
    ensures SectionAt(s, path) == Ok(None) ==> r == Ok("")
    ensures Stored(s, path).Some? ==> r == Ok(Stored(s, path).value)
    ensures r.Err? <==> SectionAt(s, path).Err? || (Stored(s, path).None? && SectionAt(s, path) != Ok(None))
    ensures SectionAt(s, path).Err? ==> r == Err(SectionAt(s, path).error)
  {
    GetString(s, path, "")
  }

  /** getStringList(path): every value of the found node, in order; nothing when the
      path is absent. */
  function GetStringList(s: Section, path: string): (r: Result<seq<string>>)
    ensures SectionAt(s, path) == Ok(None) ==> r == Ok([])
    ensures forall sec: Section :: SectionAt(s, path) == Ok(Some(sec)) && sec.base.Some? ==> r == Ok(sec.base.value.values)
    ensures r.Ok? && r.value != [] ==> Stored(s, path) == Some(r.value[0])
    ensures r.Err? <==>
      (SectionAt(s, path).Err? ||
       (SectionAt(s, path).Ok? && SectionAt(s, path).value.Some? && SectionAt(s, path).value.value.base.None?))
    ensures SectionAt(s, path).Err? ==> r == Err(SectionAt(s, path).error)
    ensures r.Err? && SectionAt(s, path).Ok? ==> r == Err(NullPointer)
  {
    match SectionAt(s, path)
    case Err(e) => Err(e)
    case Ok(None) => Ok([])
    case Ok(Some(sec)) =>
      match sec.base
      case None => Err(NullPointer)
      case Some(n) => Ok(n.values)
  }

  /** isConfigurationSection(path): false when absent; otherwise whether the found
      node holds no values. */
  function IsConfigurationSection(s: Section, path: string): (r: Result<bool>)
    ensures SectionAt(s, path) == Ok(None) ==> r == Ok(false)
    ensures r == Ok(true) ==> GetStringList(s, path) == Ok([])
    ensures r == Ok(false) ==> Stored(s, path).Some? || SectionAt(s, path) == Ok(None)
    ensures r.Err? <==> GetStringList(s, path).Err?
    ensures GetStringList(s, path).Err? ==> r == Err(GetStringList(s, path).error)
  {
    match SectionAt(s, path)
    case Err(e) => Err(e)
    case Ok(None) => Ok(false)
    case Ok(Some(sec)) =>
      match sec.base
      case None => Err(NullPointer)
      case Some(n) => Ok(|n.values| == 0)
  }

  /** A number stored in its decimal form reads back through getInt. */
  lemma GetIntReadsBack(s: Section, path: string, def: int32, x: int32)
    requires Stored(s, path) == Some(ToDecimal(x as int))
    ensures GetInt(s, path, def) == Ok(x)
  {
    ParseToDecimal(x as int);
  }

  /** A number stored in its decimal form reads back through getShort. */
  lemma GetShortReadsBack(s: Section, path: string, def: int16, x: int16)
    requires Stored(s, path) == Some(ToDecimal(x as int))
    ensures GetShort(s, path, def) == Ok(x)
  {
    ParseToDecimal(x as int);
  }

  /** A stored value that is not a number, like "abc", gives the default. */
  lemma GetIntNonNumeric(s: Section, path: string, def: int32)
    requires Stored(s, path) == Some("abc")
    ensures GetInt(s, path, def) == Ok(def)
  {
    ParseRejects();
  }
}
