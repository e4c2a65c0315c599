/**
 * The array-backed dependency-injection definition: read-only queries over
 * a nested PHP array of the form
 *   class => [superTypes => [...], instantiator => name,
 *             injectionMethods => [method => [parameter => type]]].
 */
module DiArrayDefinition {
  import opened Wrappers
  import opened PhpArrays

  /** An injection method's parameters: parameter name => type (None for null). */
  type Parameters = Assoc<Option<string>>

  /**
   * One class's entry. For these keys, a missing key and a null value read
   * the same (isset is false for both), so each is an Option.
   */
  datatype ClassDefinition = ClassDefinition(
    superTypes: Option<seq<string>>,
    instantiator: Option<string>,
    injectionMethods: Option<Assoc<Option<Parameters>>>)

  /** The whole array: class name => entry, where None is a null entry (present for array_key_exists, unset for isset). */
  type DataArray = Assoc<Option<ClassDefinition>>

  /** The PHP return value that is either an empty array() or a boolean. */
  datatype EmptyArrayOrBool = EmptyArray | Bool(b: bool) {
    /** PHP truthiness of this value: array() is false. */
    predicate Truthy() {
      Bool? && b
    }
  }

  /** The definition holds the array given to its constructor and never changes it. */
  datatype ArrayDefinition = ArrayDefinition(dataArray: DataArray) {

    /** isset($this->dataArray[$class]): the class's entry when present and not null. */
    function ClassEntry(c: string): (r: Option<ClassDefinition>)
      ensures forall d :: r == Some(d) <==> (c, Some(d)) in dataArray
    {
      var entry := Get<Option<ClassDefinition>>(dataArray, c);
      if entry.Some? then entry.value else None
    }

    /** isset($this->dataArray[$class]['injectionMethods']) */
    function MethodTable(c: string): (r: Option<Assoc<Option<Parameters>>>)
      ensures forall t :: r == Some(t) <==> exists d: ClassDefinition :: (c, Some(d)) in dataArray && d.injectionMethods == Some(t)
    {
      match ClassEntry(c)
      case Some(d) => d.injectionMethods
      case None => None
    }

    /** The top-level keys in insertion order, null entries included. */
    function GetClasses(): (classes: seq<string>)
      ensures |classes| == |dataArray|
      ensures forall i | 0 <= i < |dataArray| :: classes[i] == dataArray[i].0
    {
      Keys(dataArray)
    }

    /** True iff the key is present, even when its entry is null. */
    function HasClass(c: string): (r: bool)
      ensures r <==> exists e: Option<ClassDefinition> :: (c, e) in dataArray
      ensures r <==> c in GetClasses()
    {
      var r := HasKey(dataArray, c);
      assert r ==> (c, Get(dataArray, c).value) in dataArray;
      r
    }

    /** The stored supertypes, or [] when the entry or its superTypes is missing or null. */
    function GetClassSupertypes(c: string): (r: seq<string>)
      ensures forall d: ClassDefinition | (c, Some(d)) in dataArray :: r == d.superTypes.GetOr([])
      ensures (forall d: ClassDefinition :: (c, Some(d)) !in dataArray) ==> r == []
    {
      match ClassEntry(c)
      case None => []
      case Some(d) => d.superTypes.GetOr([])
    }

    /**
     * null for a class with no (or a null) entry, '__construct' when the
     * entry names no instantiator, the stored instantiator otherwise.
     */
    function GetInstantiator(c: string): (r: Option<string>)
      ensures r.None? <==> forall d: ClassDefinition :: (c, Some(d)) !in dataArray
      ensures forall d: ClassDefinition | (c, Some(d)) in dataArray :: r == Some(d.instantiator.GetOr("__construct"))
    {
      match ClassEntry(c)
      case None => None
      case Some(d) => Some(d.instantiator.GetOr("__construct"))
    }

    /** array() when the class or its injection methods are unset, else whether there is any injection method. */
    function HasInjectionMethods(c: string): (r: EmptyArrayOrBool)
      ensures r.EmptyArray? <==> MethodTable(c).None?
      ensures forall t | MethodTable(c) == Some(t) :: r == Bool(|t| > 0)
    {
      match MethodTable(c)
      case None => EmptyArray
      case Some(t) => Bool(|t| > 0)
    }

    /**
     * true when the class, its injection methods and that method's entry are
     * all set and not null; array() otherwise. It never returns false.
     */
    function HasInjectionMethod(c: string, m: string): (r: EmptyArrayOrBool)
      ensures r != Bool(false)
      ensures r == Bool(true) <==> exists t, p: Parameters :: MethodTable(c) == Some(t) && (m, Some(p)) in t
    {
      match MethodTable(c)
      case None => EmptyArray
      case Some(t) =>
        var entry := Get<Option<Parameters>>(t, m);
        if entry.Some? && entry.value.Some? then Bool(HasKey(t, m)) else EmptyArray
    }

    /** The keys of the class's injection methods in order, null entries included, or []. */
    function GetInjectionMethods(c: string): (r: seq<string>)
      ensures forall t | MethodTable(c) == Some(t) :: r == Keys(t)
      ensures MethodTable(c).None? ==> r == []
    {
      match MethodTable(c)
      case None => []
      case Some(t) => Keys(t)
    }

    /** The stored parameters of the method, or [] when any level is missing or null. */
    function GetInjectionMethodParameters(c: string, m: string): (r: Parameters)
      ensures forall t, p: Parameters | MethodTable(c) == Some(t) && (m, Some(p)) in t :: r == p
      ensures (forall t, p: Parameters :: MethodTable(c) == Some(t) ==> (m, Some(p)) !in t) ==> r == []
    {
      match MethodTable(c)
      case None => []
      case Some(t) =>
        var entry := Get<Option<Parameters>>(t, m);
        if entry.Some? && entry.value.Some? then entry.value.value else []
    }

    /** The array given to the constructor, unchanged: building a definition from it gives this one back. */
    function ToArray(): (r: DataArray)
      ensures ArrayDefinition(r) == this
    {
      dataArray
    }
  }

  /** A method that hasInjectionMethod reports is one of getInjectionMethods, and makes hasInjectionMethods truthy. */
  lemma InjectionMethodIsListed(def: ArrayDefinition, c: string, m: string)
    requires def.HasInjectionMethod(c, m) == Bool(true)
    ensures m in def.GetInjectionMethods(c)
    ensures def.HasInjectionMethods(c).Truthy()
  {
    var t, p: Parameters :| def.MethodTable(c) == Some(t) && (m, Some(p)) in t;
    var i :| 0 <= i < |t| && t[i] == (m, Some(p));
    assert Keys(t)[i] == m;
  }

  /** Non-empty parameters can only come from a method that hasInjectionMethod reports. */
  lemma ParametersComeFromInjectionMethod(def: ArrayDefinition, c: string, m: string)
    requires def.GetInjectionMethodParameters(c, m) != []
    ensures def.HasInjectionMethod(c, m) == Bool(true)
  {
  }

  /** hasInjectionMethods is truthy exactly when getInjectionMethods lists something. */
  lemma HasInjectionMethodsIffListed(def: ArrayDefinition, c: string)
    ensures def.HasInjectionMethods(c).Truthy() <==> def.GetInjectionMethods(c) != []
  {
  }

  /**
   * A method whose entry is null is listed by getInjectionMethods, yet
   * hasInjectionMethod answers array() for it and its parameters are [].
   */
  lemma NullMethodEntry(def: ArrayDefinition, c: string, m: string, t: Assoc<Option<Parameters>>)
    requires def.MethodTable(c) == Some(t) && (m, None) in t
    ensures m in def.GetInjectionMethods(c)
    ensures def.HasInjectionMethod(c, m) == EmptyArray
    ensures def.GetInjectionMethodParameters(c, m) == []
  {
    var i :| 0 <= i < |t| && t[i] == (m, None);
    assert Keys(t)[i] == m;
  }

  /**
   * A class whose entry is null counts for hasClass and getClasses, but
   * every other query treats it as unknown.
   */
  lemma NullClassEntry(def: ArrayDefinition, c: string)
    requires (c, None) in def.dataArray
    ensures def.HasClass(c) && c in def.GetClasses()
    ensures def.GetInstantiator(c).None?
    ensures def.GetClassSupertypes(c) == [] && def.GetInjectionMethods(c) == []
    ensures def.HasInjectionMethods(c) == EmptyArray
  {
    var i :| 0 <= i < |def.dataArray| && def.dataArray[i] == (c, None);
    assert Get(def.dataArray, c) == Some(None);
  }

  /** An instantiator (even the default) is reported only for a class the definition has. */
  lemma InstantiatorOnlyForKnownClass(def: ArrayDefinition, c: string)
    requires def.GetInstantiator(c).Some?
    ensures def.HasClass(c)
  {
  }
}
