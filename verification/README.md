# GStreamer buffer metadata: registry and header flags

This project models the core of GStreamer's buffer-metadata support:

- the process-wide registry of metadata implementations (`gst/gstmeta.c`).
  `_priv_gst_meta_initialize` installs an empty `metainfo` table.
  `gst_meta_register` checks its arguments, builds a new `GstMetaInfo`
  descriptor and stores it under the implementation name.
  `gst_meta_get_info` looks a descriptor up by that name.
- the metadata header (`gst/gstmeta.h`). This covers the `GstMetaFlags`
  enumeration, the `GST_META_FLAG_IS_SET`, `GST_META_FLAG_SET` and
  `GST_META_FLAG_UNSET` macros on the flags word of a `GstMeta` header,
  and the `GstMetaInfo` descriptor.

Modules:

- `Wrappers`: `Option`, used for C's NULL pointers.
- `FlagBits`: a 32-bit flags word read as the set of bit positions it has
  switched on.
- `Quarks`: the string intern table behind `g_quark_from_string`. Equal
  strings get equal quarks, and distinct strings get distinct quarks.
- `MetaHeader`: the flag constants, the three flag macros, and the `Info`
  (`GstMetaInfo`) record.
- `MetaRegistry`: the registry state and its three operations. It also has
  `RegisterAll`, a sequence of registrations, used to state properties
  that hold over any history of calls.

The registry is an immutable value. Each operation takes it and returns the
new value. A NULL argument is `None`.

Each descriptor gets a fresh address, so it has an identity of its own.
Registering the same name twice therefore gives two distinct descriptors,
and lookup returns the later one.

`gst_meta_register` refuses only NULL names (`gst/gstmeta.c:61-62`), so
an empty `api` or `impl` is accepted. A refused call returns NULL through
`g_return_val_if_fail` and leaves the table untouched; `MetaRegistry.Register`
models exactly that.

## Model

| member | source | states |
|---|---|---|
| `MetaHeader.CoreFlags` | gst/gstmeta.h:43-49 | NONE has no bit. READONLY and POOLED are the single bits 0 and 1. LAST is bit 16, above both core flags. |
| `MetaHeader.ExtensionFlagDisjoint` | gst/gstmeta.h:39-48 | A single-bit flag at or above FLAG_LAST shares no bit with READONLY or POOLED. |
| `MetaHeader.FlagIsSet` | gst/gstmeta.h:65 | IS_SET is exactly 0 or 1. It is 1 exactly when the flags word and the flag have a common 1-bit. |
| `MetaHeader.FlagIsSetMeaning` | gst/gstmeta.h:65 | IS_SET is 1 exactly when the word's set of bit positions meets the flag's. |
| `MetaHeader.FlagSet` | gst/gstmeta.h:73 | After SET, every bit of the flag is on. Every bit outside the flag keeps its old value. |
| `MetaHeader.FlagSetMeaning` | gst/gstmeta.h:73 | The bit positions after SET are the word's positions united with the flag's. |
| `MetaHeader.FlagSetDeterminedByBits` | gst/gstmeta.h:73 | A word has exactly the union of the two bit-position sets if and only if it is the result of SET. |
| `MetaHeader.FlagSetThenIsSet` | gst/gstmeta.h:65-73 | After SET of a non-empty flag, IS_SET of that flag is 1. |
| `MetaHeader.FlagSetIdempotent` | gst/gstmeta.h:73 | SET twice with the same flag equals SET once. |
| `MetaHeader.FlagSetFrame` | gst/gstmeta.h:65-73 | SET leaves IS_SET unchanged for every flag that shares no bit with it. |
| `MetaHeader.FlagUnset` | gst/gstmeta.h:81 | After UNSET, every bit of the flag is off. Every bit outside the flag keeps its old value. |
| `MetaHeader.FlagUnsetMeaning` | gst/gstmeta.h:81 | The bit positions after UNSET are the word's positions minus the flag's. |
| `MetaHeader.FlagUnsetDeterminedByBits` | gst/gstmeta.h:81 | A word has exactly the difference of the two bit-position sets if and only if it is the result of UNSET. |
| `MetaHeader.FlagUnsetThenNotSet` | gst/gstmeta.h:65-81 | After UNSET of a flag, IS_SET of that flag is 0. |
| `MetaHeader.FlagUnsetIdempotent` | gst/gstmeta.h:81 | UNSET twice with the same flag equals UNSET once. |
| `MetaHeader.FlagUnsetFrame` | gst/gstmeta.h:65-81 | UNSET leaves IS_SET unchanged for every flag that shares no bit with it. |
| `MetaHeader.FlagUnsetAfterSet` | gst/gstmeta.h:73-81 | UNSET after SET of the same flag equals UNSET alone, so the earlier SET leaves no trace. |
| `MetaHeader.FlagSetAfterUnset` | gst/gstmeta.h:73-81 | SET after UNSET of the same flag equals SET alone, so the earlier UNSET leaves no trace. |
| `MetaHeader.FlagNoneNeverSet` | gst/gstmeta.h:44-81 | FLAG_NONE is never reported as set. Setting or clearing it leaves the word unchanged. |
| `MetaHeader.DisjointFlags` | gst/gstmeta.h:43-49 | Two flags share no bit position exactly when their bitwise AND is zero. |
| `Quarks.FromString` | gst/gstmeta.c:66 | The result maps the string to the returned quark. The table only grows, by at most that string. A known string keeps its quark. A new string gets an unused, non-zero quark. |
| `Quarks.QuarkIdentity` | gst/gstmeta.c:66 | In any later valid table, two strings have equal quarks exactly when they are the same string. |
| `MetaRegistry.Initialize` | gst/gstmeta.c:38-42 | After initialization no name is found. Interned strings and allocated descriptors are kept, and the result is a valid registry. |
| `MetaRegistry.Lookup` | gst/gstmeta.c:94-106 | A NULL name finds nothing. Otherwise lookup returns exactly the descriptor stored under the name, or NULL when there is none. A found descriptor has non-zero size. |
| `MetaRegistry.Register` | gst/gstmeta.c:54-82 | A NULL api or impl, or a zero size, returns NULL and changes nothing. Otherwise the returned descriptor carries the given size, type and hooks and the quark interned for api. It is found under impl while every other name finds what it found before. Its address is fresh, so it differs from every stored descriptor, and the registry stays valid. |
| `MetaRegistry.RegisterAll` | gst/gstmeta.c:54-82 | Along any sequence of registrations the registry stays valid. Interned strings keep their quarks, and the allocation counter never decreases. |
| `MetaRegistry.OtherRegistrationsKeepLookup` | gst/gstmeta.c:78-102 | Registrations that store nothing under a name do not change what lookup of that name returns. This covers rejected calls and calls for other names. |
| `MetaRegistry.NeverRegisteredNotFound` | gst/gstmeta.c:38-102 | After initialization, a name used by no accepted registration is not found. |
| `MetaRegistry.RegisteredStaysFound` | gst/gstmeta.c:78-102 | After a successful registration, lookup of its name returns that descriptor until another accepted registration stores under the same name. |
| `MetaRegistry.LastRegistrationWins` | gst/gstmeta.c:65-78 | After two accepted registrations of one name, lookup returns the second descriptor, which is distinct from the first. |
| `MetaRegistry.ApiTagIdentity` | gst/gstmeta.c:66 | Two accepted registrations, with any registrations in between, get equal api tags exactly when their api strings are equal. |

## Left out

- Locking: the `GStaticRWLock` around the table is not modelled. Register
  and lookup are atomic steps.
- Type registration: `g_pointer_type_register_static` belongs to the type
  system, not this model. Its result is the `gtype` parameter of
  `MetaRegistry.Register`, and nothing is claimed about it. For example,
  GLib refuses a second registration of the same type name, and that is
  not modelled.
- Allocation: `g_slice_new` is modelled only as a counter that hands out
  fresh addresses. There is no memory model.
- Quarks: GQuark values are unbounded integers. The 32-bit range of a real
  GQuark is not modelled.
- Hash-table keys: the table keeps the caller's `impl` pointer without
  copying the string, and on replacement it keeps the old key pointer. The
  model keys by string value, so key lifetime is not modelled.
- Before initialization: use of the registry while `metainfo` is still NULL
  is not modelled.
- Logging: the `GST_DEBUG` message and the critical warning printed by
  `g_return_val_if_fail` are not modelled.
- Hooks: the hook bodies (init, free, copy, transform) and `GstBuffer`
  belong to metadata implementations and buffers. A hook is modelled as an
  opaque function address or NULL.
- Padding: the `_gst_reserved` padding of `GstMetaInfo` is not modelled.
- `GstMeta`: the header has no operations beyond the flag macros. Those
  touch only its `flags` word, so they are modelled on that word and the
  header record itself (with its `info` pointer) is not declared.
- MetaHeader.FlagSetThenIsSet: requires a non-empty flag. IS_SET of
  FLAG_NONE is 0 even after SET.
- MetaHeader.ExtensionFlagDisjoint: stated for single-bit extension flags.
  A multi-bit value at or above FLAG_LAST, such as `0x10001`, can overlap
  READONLY.
