/**
 * The process-wide metadata registry: a map from implementation name to the
 * descriptor registered under it, filled by registration and read by lookup.
 * Both are modelled as atomic steps on an immutable registry value; the
 * reader/writer lock that makes them atomic in the process is not modelled.
 */
module MetaRegistry {

  import opened Wrappers
  import opened Quarks
  import opened MetaHeader

  /**
   * The registry state: the `metainfo` table, the api-tag intern table it
   * shares with the rest of the process, and the number of descriptors
   * allocated so far (the next descriptor's address).
   */
  datatype Registry = Registry(
    metainfo: map<string, Info>,
    quarks: QuarkTable,
    nextAddr: nat)

  /**
   * What every reachable registry satisfies: the intern table is well
   * formed, every registered descriptor has been allocated and has a
   * non-zero size, and its api tag is an issued quark.
   */
  predicate Valid(r: Registry)
  {
    && Quarks.Valid(r.quarks)
    && forall impl :: impl in r.metainfo ==>
         && r.metainfo[impl].addr < r.nextAddr
         && r.metainfo[impl].size != 0
         && 1 <= r.metainfo[impl].api < r.quarks.next
  }

  /** The result of `gst_meta_register`: the new state and the returned descriptor or NULL. */
  datatype Registration = Registration(registry: Registry, info: Option<Info>)

  /** The argument checks `gst_meta_register` makes before touching any state. */
  predicate Accepts(api: Option<string>, impl: Option<string>, size: Size)
  {
    api.Some? && impl.Some? && size != 0
  }

  /**
   * `_priv_gst_meta_initialize`: install a fresh, empty `metainfo` table.
   * Interned strings and allocated descriptors belong to the process and
   * survive it.
   */
  function Initialize(r: Registry): (r': Registry)
    ensures forall impl :: Lookup(r', impl) == None
    ensures r'.quarks == r.quarks && r'.nextAddr == r.nextAddr
    ensures Quarks.Valid(r.quarks) ==> Valid(r')
  {
    r.(metainfo := map[])
  }

  /**
   * `gst_meta_get_info`: the descriptor registered under `impl`, or NULL
   * when `impl` is NULL or nothing is registered under it. A descriptor
   * found in a valid registry is always a complete one.
   */
  function Lookup(r: Registry, impl: Option<string>): (info: Option<Info>)
    ensures info.Some? <==> impl.Some? && impl.value in r.metainfo
    ensures info.Some? ==> info.value == r.metainfo[impl.value]
    ensures Valid(r) && info.Some? ==> info.value.size != 0 && info.value.addr < r.nextAddr
  {
    if impl.None? then None
    else if impl.value in r.metainfo then Some(r.metainfo[impl.value])
    else None
  }

  /**
   * `gst_meta_register`. A NULL `api`, a NULL `impl` or a zero `size`
   * returns NULL and changes nothing. Otherwise a new descriptor carrying
   * the interned `api`, the implementor type `gtype`, `size` and the four
   * hooks is stored under `impl`, replacing whatever was there, and is
   * returned. `gtype` is what the type system returns for `impl`.
   */
  function Register(
    r: Registry, api: Option<string>, impl: Option<string>, size: Size,
    initFunc: Option<FuncPtr>, freeFunc: Option<FuncPtr>,
    copyFunc: Option<FuncPtr>, transformFunc: Option<FuncPtr>,
    gtype: GType): (out: Registration)
    ensures !Accepts(api, impl, size) ==> out.info == None && out.registry == r
    ensures Accepts(api, impl, size) ==>
      && out.info.Some?
      && out.info.value.size == size
      && out.info.value.gtype == gtype
      && out.info.value.initFunc == initFunc
      && out.info.value.freeFunc == freeFunc
      && out.info.value.copyFunc == copyFunc
      && out.info.value.transformFunc == transformFunc
    ensures Accepts(api, impl, size) ==>
      && api.value in out.registry.quarks.ids
      && out.registry.quarks.ids[api.value] == out.info.value.api
    ensures Accepts(api, impl, size) ==>
      && Lookup(out.registry, impl) == out.info
      && forall other :: other != impl.value ==>
           Lookup(out.registry, Some(other)) == Lookup(r, Some(other))
    ensures Accepts(api, impl, size) ==>
      r.nextAddr <= out.info.value.addr < out.registry.nextAddr
    ensures Accepts(api, impl, size) && Valid(r) ==>
      forall other :: other in r.metainfo ==> r.metainfo[other] != out.info.value
    ensures Extends(r.quarks, out.registry.quarks)
    ensures r.nextAddr <= out.registry.nextAddr
    ensures Valid(r) ==> Valid(out.registry)
  {
    if !Accepts(api, impl, size) then
      Registration(r, None)
    else
      var interned := FromString(r.quarks, api.value);
      var info := Info(r.nextAddr, interned.quark, gtype, size,
                       initFunc, freeFunc, copyFunc, transformFunc);
      Registration(
        Registry(r.metainfo[impl.value := info], interned.table, r.nextAddr + 1),
        Some(info))
  }

  /** One call of `gst_meta_register` with all its arguments. */
  datatype Call = Call(
    api: Option<string>, impl: Option<string>, size: Size,
    initFunc: Option<FuncPtr>, freeFunc: Option<FuncPtr>,
    copyFunc: Option<FuncPtr>, transformFunc: Option<FuncPtr>,
    gtype: GType)

  function Apply(r: Registry, c: Call): Registration
  {
    Register(r, c.api, c.impl, c.size, c.initFunc, c.freeFunc, c.copyFunc, c.transformFunc, c.gtype)
  }

  /** The call is accepted and stores its descriptor under `impl`. */
  predicate Stores(c: Call, impl: string)
  {
    Accepts(c.api, c.impl, c.size) && c.impl == Some(impl)
  }

  /**
   * A sequence of registrations performed one after another. Along any such
   * sequence the registry stays valid, interned strings keep their quark,
   * and no allocated address is reused.
   */
  function RegisterAll(r: Registry, calls: seq<Call>): (r': Registry)
    ensures Valid(r) ==> Valid(r')
    ensures Extends(r.quarks, r'.quarks)
    ensures r.nextAddr <= r'.nextAddr
    decreases |calls|
  {
    if |calls| == 0 then r
    else
      var step := Apply(r, calls[0]).registry;
      var rest := RegisterAll(step, calls[1..]);
      ExtendsTransitive(r.quarks, step.quarks, rest.quarks);
      rest
  }

  /**
   * Registrations that store nothing under `impl` (whether rejected or
   * aimed at another name) leave the lookup of `impl` as it was.
   */
  lemma {:induction false} OtherRegistrationsKeepLookup(r: Registry, calls: seq<Call>, impl: string)
    requires forall i :: 0 <= i < |calls| ==> !Stores(calls[i], impl)
    ensures Lookup(RegisterAll(r, calls), Some(impl)) == Lookup(r, Some(impl))
    decreases |calls|
  {
    if |calls| > 0 {
      var step := Apply(r, calls[0]).registry;
      assert Lookup(step, Some(impl)) == Lookup(r, Some(impl));
      OtherRegistrationsKeepLookup(step, calls[1..], impl);
    }
  }

  /**
   * After initialization, a name that no accepted registration has used is
   * not found, however many other registrations happened.
   */
  lemma NeverRegisteredNotFound(r: Registry, calls: seq<Call>, impl: string)
    requires forall i :: 0 <= i < |calls| ==> !Stores(calls[i], impl)
    ensures Lookup(RegisterAll(Initialize(r), calls), Some(impl)) == None
  {
    OtherRegistrationsKeepLookup(Initialize(r), calls, impl);
  }

  /**
   * The descriptor returned by a registration is what lookup of its name
   * yields until another accepted registration stores under that name.
   */
  lemma RegisteredStaysFound(r: Registry, c: Call, calls: seq<Call>)
    requires Accepts(c.api, c.impl, c.size)
    requires forall i :: 0 <= i < |calls| ==> !Stores(calls[i], c.impl.value)
    ensures Lookup(RegisterAll(Apply(r, c).registry, calls), c.impl) == Apply(r, c).info
  {
    OtherRegistrationsKeepLookup(Apply(r, c).registry, calls, c.impl.value);
  }

  /**
   * Registering the same name twice: lookup yields the second descriptor,
   * and that is a new descriptor, not the first one.
   */
  lemma LastRegistrationWins(r: Registry, first: Call, second: Call)
    requires Accepts(first.api, first.impl, first.size)
    requires Accepts(second.api, second.impl, second.size)
    requires first.impl == second.impl
    ensures var s1 := Apply(r, first);
            var s2 := Apply(s1.registry, second);
            && Lookup(s2.registry, second.impl) == s2.info
            && s2.info != s1.info
  {
  }

  /**
   * Two accepted registrations, with any registrations in between, get
   * equal api tags exactly when their api strings are equal.
   */
  lemma ApiTagIdentity(r: Registry, first: Call, calls: seq<Call>, second: Call)
    requires Valid(r)
    requires Accepts(first.api, first.impl, first.size)
    requires Accepts(second.api, second.impl, second.size)
    ensures var s1 := Apply(r, first);
            var s2 := Apply(RegisterAll(s1.registry, calls), second);
            s1.info.value.api == s2.info.value.api <==> first.api == second.api
  {
    var s1 := Apply(r, first);
    var mid := RegisterAll(s1.registry, calls);
    var s2 := Apply(mid, second);
    ExtendsTransitive(s1.registry.quarks, mid.quarks, s2.registry.quarks);
  }
}
