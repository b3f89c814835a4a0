/**
 * TSys::TypeRegistry: the process-wide table from type hash codes to type
 * handlers, with the name and API-name indexes kept beside it.
 */
module Registry {
  import opened Numeric
  import opened Values
  import opened Handlers

  /**
   * The registry's tables agree: the handler table covers exactly the
   * registered hashes, the hash-to-name table records each handler's
   * name, and both name indexes point at registered hashes.
   */
  ghost predicate Indexed(hashes: seq<SizeT>, hashesHandlers: map<SizeT, TypeHandler>,
                          namesPerHashes: map<SizeT, string>, hashesPerNames: map<string, SizeT>,
                          hashesPerApiNames: map<string, SizeT>)
  {
    && (forall h :: h in hashesHandlers <==> h in hashes)
    && namesPerHashes.Keys == hashesHandlers.Keys
    && (forall h :: h in namesPerHashes ==> namesPerHashes[h] == hashesHandlers[h].Name())
    && (forall n :: n in hashesPerNames ==> hashesPerNames[n] in hashes)
    && (forall n :: n in hashesPerApiNames ==> hashesPerApiNames[n] in hashes)
  }

  /** Every indexed name resolves to a handler of that name. */
  ghost predicate NamesAgree(hashesHandlers: map<SizeT, TypeHandler>, hashesPerNames: map<string, SizeT>)
  {
    forall n :: n in hashesPerNames ==> hashesPerNames[n] in hashesHandlers
                                        && hashesHandlers[hashesPerNames[n]].Name() == n
  }

  /** The five updates RegisterType makes keep the tables in agreement. */
  lemma RegisterKeepsIndexed(hashes: seq<SizeT>, hashesHandlers: map<SizeT, TypeHandler>,
                             namesPerHashes: map<SizeT, string>, hashesPerNames: map<string, SizeT>,
                             hashesPerApiNames: map<string, SizeT>, hash: SizeT, handler: TypeHandler)
    requires Indexed(hashes, hashesHandlers, namesPerHashes, hashesPerNames, hashesPerApiNames)
    ensures Indexed(hashes + [hash], hashesHandlers[hash := handler], namesPerHashes[hash := handler.Name()],
                    hashesPerNames[handler.Name() := hash], hashesPerApiNames[handler.ApiName() := hash])
  {
  }

  /** Registering a hash that is new, or whose handler keeps its name, keeps every indexed name resolving to its own handler. */
  lemma RegisterKeepsNamesAgree(hashesHandlers: map<SizeT, TypeHandler>, hashesPerNames: map<string, SizeT>,
                                hash: SizeT, handler: TypeHandler)
    ensures NamesAgree(hashesHandlers, hashesPerNames)
            && (hash in hashesHandlers ==> hashesHandlers[hash].Name() == handler.Name())
            ==> NamesAgree(hashesHandlers[hash := handler], hashesPerNames[handler.Name() := hash])
  {
  }

  /** Each handler sits under its own type's hash and has a coherent converter table. */
  ghost predicate Agree(hashesHandlers: map<SizeT, TypeHandler>)
    reads hashesHandlers.Values
  {
    forall hash :: hash in hashesHandlers ==>
      hashesHandlers[hash].Hash() == hash && hashesHandlers[hash].Coherent()
  }

  /** Filing a coherent handler under its own hash keeps the handler table in agreement. */
  lemma RegisterKeepsAgree(hashesHandlers: map<SizeT, TypeHandler>, hash: SizeT, handler: TypeHandler)
    ensures Agree(hashesHandlers) && handler.Hash() == hash && handler.Coherent()
            ==> Agree(hashesHandlers[hash := handler])
  {
  }

  class TypeRegistry {
    /** Every hash ever registered, in registration order (a forced re-registration appends it again). */
    var hashes: seq<SizeT>
    var hashesHandlers: map<SizeT, TypeHandler>
    var namesPerHashes: map<SizeT, string>
    var hashesPerNames: map<string, SizeT>
    var hashesPerApiNames: map<string, SizeT>

    /** What RegisterType keeps true: see Indexed. */
    ghost predicate Valid()
      reads this
    {
      Indexed(hashes, hashesHandlers, namesPerHashes, hashesPerNames, hashesPerApiNames)
    }

    /**
     * Every name in the name index resolves to a handler of that name.
     * RegisterType keeps it unless a forced registration replaces a
     * handler by one with another name (see RegisterType).
     */
    ghost predicate NamesConsistent()
      reads this
      requires Valid()
    {
      NamesAgree(hashesHandlers, hashesPerNames)
    }

    /**
     * Every handler is registered under its own type's hash and carries a
     * coherent converter table: what the built-in registrations produce.
     */
    ghost predicate HandlersAgree()
      reads this, hashesHandlers.Values
    {
      Agree(hashesHandlers)
    }

    /** The registry the constructor in StandardTypes.h starts from, before any type is registered. */
    constructor ()
      ensures Valid() && NamesConsistent() && HandlersAgree()
      ensures hashes == [] && hashesHandlers == map[]
      ensures namesPerHashes == map[] && hashesPerNames == map[] && hashesPerApiNames == map[]
    {
      hashes := [];
      hashesHandlers := map[];
      namesPerHashes := map[];
      hashesPerNames := map[];
      hashesPerApiNames := map[];
    }

    /** GetHashFromName: the hash registered under a type name, or (0, false). */
    function GetHashFromName(name: string): (r: (SizeT, bool))
      reads this
      requires Valid()
      ensures r.1 <==> name in hashesPerNames
      ensures r.1 ==> r.0 in hashes && r.0 == hashesPerNames[name]
      ensures !r.1 ==> r.0 == 0
    {
      if name !in hashesPerNames then (0, false) else (hashesPerNames[name], true)
    }

    /** GetNameFromHash: the type name registered for a hash, or ("", false). */
    function GetNameFromHash(hash: SizeT): (r: (string, bool))
      reads this
      requires Valid()
      ensures r.1 <==> hash in hashes
      ensures r.1 ==> r.0 == hashesHandlers[hash].Name()
      ensures !r.1 ==> r.0 == ""
    {
      if hash !in namesPerHashes then ("", false) else (namesPerHashes[hash], true)
    }

    /** HashFromApiName: the hash registered under an API name, or (size_t)-1. */
    function HashFromApiName(name: string): (r: SizeT)
      reads this
      requires Valid()
      ensures name in hashesPerApiNames ==> r == hashesPerApiNames[name] && r in hashes
      ensures name !in hashesPerApiNames ==> r == SIZE_MAX
    {
      if name !in hashesPerApiNames then SIZE_MAX else hashesPerApiNames[name]
    }

    /** GetTypeHandle(hash): the handler registered for a hash, or null. */
    function GetTypeHandle(hash: SizeT): (r: TypeHandler?)
      reads this
      requires Valid()
      ensures r != null <==> hash in hashes
      ensures r != null ==> r == hashesHandlers[hash]
    {
      if hash !in hashes then null else hashesHandlers[hash]
    }

    /** GetTypeHandleFromName: the handler of the hash registered under a type name, or null. */
    function GetTypeHandleFromName(name: string): (r: TypeHandler?)
      reads this
      requires Valid()
      ensures r != null <==> name in hashesPerNames
      ensures r != null ==> r == GetTypeHandle(hashesPerNames[name])
    {
      if name !in hashesPerNames then null else GetTypeHandle(hashesPerNames[name])
    }

    /** GetTypeHandleFromApiName: the handler of the hash registered under an API name, or null. */
    function GetTypeHandleFromApiName(name: string): (r: TypeHandler?)
      reads this
      requires Valid()
      ensures r != null <==> name in hashesPerApiNames
      ensures r != null ==> r == GetTypeHandle(HashFromApiName(name))
    {
      if name !in hashesPerApiNames then null else GetTypeHandle(hashesPerApiNames[name])
    }

    /** GetTypeHandle<T>(): the handler registered for typeid(T). */
    function GetTypeHandleOf(t: TypeId): (r: TypeHandler?)
      reads this
      requires Valid()
      ensures r != null <==> IdHash(t) in hashes
      ensures r != null ==> r == hashesHandlers[IdHash(t)]
    {
      GetTypeHandle(IdHash(t))
    }

    /**
     * RegisterType(hash, handler, force): refused, with nothing changed,
     * when the hash is already registered and `force` is not set;
     * otherwise the hash is appended and every index is pointed at the
     * new handler, so that the three lookups find it and the handlers
     * of all other hashes stay as they were.
     */
    method RegisterType(hash: SizeT, handler: TypeHandler, force: bool) returns (ok: bool)
      requires Valid()
      modifies this
      ensures Valid()
      ensures ok <==> force || hash !in old(hashes)
      ensures !ok ==> unchanged(this)
      ensures ok ==> hashes == old(hashes) + [hash]
      ensures ok ==> hashesHandlers == old(hashesHandlers)[hash := handler]
      ensures ok ==> namesPerHashes == old(namesPerHashes)[hash := handler.Name()]
      ensures ok ==> hashesPerNames == old(hashesPerNames)[handler.Name() := hash]
      ensures ok ==> hashesPerApiNames == old(hashesPerApiNames)[handler.ApiName() := hash]
      ensures ok && old(NamesConsistent())
              && (hash in old(hashesHandlers) ==> old(hashesHandlers)[hash].Name() == handler.Name())
              ==> NamesConsistent()
    {
      if hash in hashes && !force {
        return false;
      }
      hashes := hashes + [hash];
      hashesHandlers := hashesHandlers[hash := handler];
      namesPerHashes := namesPerHashes[hash := handler.Name()];
      hashesPerNames := hashesPerNames[handler.Name() := hash];
      hashesPerApiNames := hashesPerApiNames[handler.ApiName() := hash];
      ok := true;
      RegisterKeepsIndexed(old(hashes), old(hashesHandlers), old(namesPerHashes), old(hashesPerNames),
                           old(hashesPerApiNames), hash, handler);
      RegisterKeepsNamesAgree(old(hashesHandlers), old(hashesPerNames), hash, handler);
    }

    /** RegisterType<T>(handler, force): registration under typeid(T).hash_code(). */
    method RegisterTypeOf(t: TypeId, handler: TypeHandler, force: bool) returns (ok: bool)
      requires Valid()
      modifies this
      ensures Valid()
      ensures ok <==> force || IdHash(t) !in old(hashes)
      ensures !ok ==> unchanged(this)
      ensures ok ==> hashes == old(hashes) + [IdHash(t)]
      ensures ok ==> hashesHandlers == old(hashesHandlers)[IdHash(t) := handler]
      ensures ok ==> namesPerHashes == old(namesPerHashes)[IdHash(t) := handler.Name()]
      ensures ok ==> hashesPerNames == old(hashesPerNames)[handler.Name() := IdHash(t)]
      ensures ok ==> hashesPerApiNames == old(hashesPerApiNames)[handler.ApiName() := IdHash(t)]
      ensures ok && old(NamesConsistent())
              && (IdHash(t) in old(hashesHandlers) ==> old(hashesHandlers)[IdHash(t)].Name() == handler.Name())
              ==> NamesConsistent()
    {
      ok := RegisterType(IdHash(t), handler, force);
    }

    /** RegisterType<T, H>(force): registration of a freshly built handler H under typeid(T). */
    method RegisterNewTypeOf(t: TypeId, kind: HandlerKind, force: bool) returns (ok: bool)
      requires Valid()
      modifies this
      ensures Valid()
      ensures ok <==> force || IdHash(t) !in old(hashes)
      ensures !ok ==> unchanged(this)
      ensures ok ==> IdHash(t) in hashesHandlers && var h := hashesHandlers[IdHash(t)];
                     fresh(h) && h.kind == kind && h.converters == BuiltinConverters(kind)
                     && hashesHandlers == old(hashesHandlers)[IdHash(t) := h]
      ensures ok ==> hashes == old(hashes) + [IdHash(t)]
      ensures ok ==> namesPerHashes == old(namesPerHashes)[IdHash(t) := TypeName(HandledType(kind))]
      ensures ok ==> hashesPerNames == old(hashesPerNames)[TypeName(HandledType(kind)) := IdHash(t)]
      ensures ok ==> hashesPerApiNames == old(hashesPerApiNames)[ApiNameOf(kind) := IdHash(t)]
      ensures ok && old(NamesConsistent())
              && (IdHash(t) in old(hashesHandlers) ==> old(hashesHandlers)[IdHash(t)].Name() == TypeName(HandledType(kind)))
              ==> NamesConsistent()
      ensures old(HandlersAgree()) && HandledType(kind) == t ==> HandlersAgree()
    {
      var handler := new TypeHandler(kind);
      ok := RegisterType(IdHash(t), handler, force);
      RegisterKeepsAgree(old(hashesHandlers), IdHash(t), handler);
    }
  }

  /**
   * After RegisterType(hash, handler) succeeds, the handler is what the
   * hash, its type name and its API name all look up, and every other
   * hash still looks up the handler it had before.
   */
  lemma LookupsAfterRegister(reg: TypeRegistry, before: map<SizeT, TypeHandler>, hash: SizeT, handler: TypeHandler)
    requires reg.Valid()
    requires hash in reg.hashes && reg.hashesHandlers == before[hash := handler]
    requires handler.Name() in reg.hashesPerNames && reg.hashesPerNames[handler.Name()] == hash
    requires handler.ApiName() in reg.hashesPerApiNames && reg.hashesPerApiNames[handler.ApiName()] == hash
    ensures reg.GetTypeHandle(hash) == handler
    ensures reg.GetTypeHandleFromName(handler.Name()) == handler
    ensures reg.GetTypeHandleFromApiName(handler.ApiName()) == handler
    ensures reg.GetNameFromHash(hash) == (handler.Name(), true)
    ensures forall k :: k != hash && k in before ==> reg.GetTypeHandle(k) == before[k]
  {
  }

  /**
   * Name round trip: while the name index is consistent, the name a hash
   * was found under is the name recorded for that hash.
   */
  lemma NameRoundTrip(reg: TypeRegistry, name: string)
    requires reg.Valid() && reg.NamesConsistent()
    ensures reg.GetHashFromName(name).1 ==> reg.GetNameFromHash(reg.GetHashFromName(name).0) == (name, true)
    ensures reg.GetHashFromName(name).1 ==> reg.GetTypeHandleFromName(name).Name() == name
  {
  }

  /**
   * A forced registration over a hash already registered under another
   * name leaves that old name pointing at the hash, so it now resolves to
   * a handler whose name is different.
   */
  lemma {:induction false} StaleNameAfterForce(reg: TypeRegistry, old_name: string, hash: SizeT, handler: TypeHandler)
    requires reg.Valid()
    requires old_name in reg.hashesPerNames && reg.hashesPerNames[old_name] == hash
    requires handler.Name() != old_name
    ensures var hs := reg.hashes + [hash];
            var hh := reg.hashesHandlers[hash := handler];
            var hn := reg.hashesPerNames[handler.Name() := hash];
            old_name in hn && hh[hn[old_name]] == handler && hh[hn[old_name]].Name() != old_name
  {
  }

  /** The lazily created TypeRegistry::registry singleton. */
  class RegistrySingleton {
    var registry: TypeRegistry?

    constructor ()
      ensures registry == null && Valid()
    {
      registry := null;
    }

    /** The registry, once created, keeps its indices consistent. */
    ghost predicate Valid()
      reads this, registry
    {
      registry != null ==> registry.Valid()
    }

    /** GetRegistry: the registry, created empty on first use and the same object afterwards. */
    method GetRegistry() returns (r: TypeRegistry)
      requires Valid()
      modifies this
      ensures registry == r && Valid() && r.Valid()
      ensures old(registry) != null ==> r == old(registry)
      ensures old(registry) == null ==> fresh(r) && r.Valid() && r.HandlersAgree() && r.hashes == [] && r.hashesPerNames == map[]
                                        && r.hashesPerApiNames == map[]
    {
      if registry == null {
        registry := new TypeRegistry();
      }
      r := registry;
    }
  }
}
