# dtl_type in Dafny

A model of the core of the dtl_type library, which provides reference-counted dynamic values for C. The model covers:

- the common value header (`dtl_dv`);
- scalars (`dtl_sv`);
- arrays (`dtl_av`);
- hashes (`dtl_hv`).

Every value carries a kind tag in the low nibble of its flags word and a reference count. A scalar also keeps its type tag in bits 4 to 7 of the flags.

- Releasing the last reference deletes the value.
- Deleting a scalar releases any nested value it holds and calls the destructor of a pointer it holds.
- Deleting an array or a hash releases every element it holds.
- `UNDEF` is the library's static "undefined" scalar (`g_dtl_sv_undef`). Releases never touch it, so it is never freed.

## How memory is modelled

Memory is a heap of cells indexed by address (`DynamicValues.Mem`).

- Address 0 is NULL and address 1 is the `UNDEF` singleton.
- A cell holds:
  - the count;
  - the flags word as `bv32`;
  - a body, which is one of: the scalar payload union plus its optional string buffer, the array's slots, or the hash's ordered key/value entries.

The mutable memory is the class `DynamicValues.Heap`. Its methods change the cells in place:

- `IncRef`, `DecRef` and `Delete`;
- the scalar setters and `make_*` constructors;
- the array operations;
- the hash operations.

Each method is proved equal to a pure function on the snapshot `Heap.State()`, for example `AfterDecRef`, `AfterSetCstr` or `Keys`. The lemmas then state what the library promises about those functions.

`Heap.Valid()` says that memory is well formed (`WF`):

- NULL is never allocated, and the singleton is a live scalar;
- every flags word matches its body's kind;
- a scalar's type tag is at most DV, its payload suits that tag, and it has a string buffer exactly when the tag is STR;
- a hash never holds a key twice.

Every state-changing method requires `Valid()` and keeps it. The exceptions are the internal steps `Scalars.SetType` and `Scalars.Write`: `SetType` leaves the old payload under the new tag until `Write` stores the new payload. The `...KeepsWF` lemmas state the same fact about the functions.

The release cascade (dec_ref → delete → release of the children) is one recursive function. It terminates on the set of cells that still hold references. The cascade is safe in the following sense (`CascadeOk`):

- nothing is freed twice;
- no value that held references is left at zero without being freed.

The insertion sort of `dtl_av_sort` works in place on an `array<Ref>` copy of the slots. It is proved against `SortFrom`, a function that describes the run pass by pass.

`dtl_sv_ztrim` also works in place, on a NUL-terminated `array<char>`. It is proved against `Ztrim`.

C integer conversions are written out as reductions modulo 2^32 and 2^64:

- `WrapU32`, `WrapU64`, `WrapI32`, `WrapI64`;
- the newtypes `i32`, `u32`, `i64`, `u64`.

## Model

| member | source | states |
|---|---|---|
| DynamicValues.Boot | src/dtl_sv.c:56-57 | start-up memory is well formed and holds exactly one cell, the singleton's |
| DynamicValues.AllocateFresh | src/dtl_dv.c:83-89 | an allocation goes to a fresh address other than NULL and the singleton, adds exactly that cell and keeps memory well formed |
| DynamicValues.NewNullIsNullWithCountOne | src/dtl_dv.c:27-34 | dtl_dv_null gives a fresh value of kind NULL with count 1; nothing else changes |
| DynamicValues.DvType | src/dtl_dv.c:71-76 | the result is a nibble value (below 16), and INVALID for NULL |
| DynamicValues.AfterIncRef | src/dtl_dv.c:62-64 | inc_ref adds one to the count of a live value (the singleton included) and changes nothing else; NULL is ignored |
| DynamicValues.AfterDecRef | src/dtl_dv.c:65-70 | dec_ref only shrinks memory: it never frees the singleton, only lowers counts of the cells it keeps, leaves their flags and bodies alone and only appends destructor calls |
| DynamicValues.AfterDelete | src/dtl_dv.c:36-56 | delete only shrinks memory in the same sense as dec_ref |
| DynamicValues.AfterScalarDestroy | src/dtl_sv.c:98-120 | destroying a scalar only shrinks memory; a pointer's destructor is logged, and a nested value is released once |
| DynamicValues.AfterReleaseAll | src/dtl_dv.c:78-81 | releasing a sequence of references only shrinks memory |
| DynamicValues.DecRefSafe | src/dtl_dv.c:65-70 | a release frees only cells that still held references and, when every cell has a valid kind, strands no value at count zero |
| DynamicValues.LastRefSafe | src/dtl_dv.c:65-70 | releasing the last reference (zeroing, then delete) keeps the cascade safe |
| DynamicValues.DeleteFrees | src/dtl_dv.c:36-56 | deleting a value of a valid kind frees its cell |
| DynamicValues.DecRefLastFrees | src/dtl_dv.c:65-70 | releasing the last reference to a value of a valid kind frees it |
| DynamicValues.DeleteSafe | src/dtl_dv.c:36-56 | delete frees, apart from the deleted value, only cells that still held references, and strands none when every kind is valid |
| DynamicValues.ScalarDestroySafe | src/dtl_sv.c:98-120 | scalar teardown keeps the cascade safe |
| DynamicValues.ReleaseAllSafe | src/dtl_dv.c:78-81 | releasing each element in turn keeps the cascade safe |
| DynamicValues.ShrinksKeepsWF | src/dtl_dv.c:65-70 | anything a release may do keeps memory well formed |
| DynamicValues.IncRefKeepsWF | src/dtl_dv.c:62-64 | inc_ref keeps memory well formed |
| DynamicValues.IncThenDecRestores | src/dtl_dv.c:62-70 | inc_ref then dec_ref on a live value other than the singleton restores memory exactly |
| DynamicValues.RetainReleaseBalance | src/dtl_dv.c:62-70 | n retains followed by n releases on a live value other than the singleton restore memory exactly |
| DynamicValues.DecRefIgnored | src/dtl_dv.c:65-70 | dec_ref on NULL, on the singleton or on a count already at zero changes nothing |
| DynamicValues.DecRefShared | src/dtl_dv.c:65-70 | on a count above one, dec_ref lowers it by exactly one and changes nothing else |
| DynamicValues.ReleaseAllNoCascade | src/dtl_dv.c:78-81 | releasing references whose counts exceed their multiplicities lowers each count by its multiplicity and frees nothing |
| DynamicValues.ReleaseContainer | src/dtl_dv.c:36-70 | releasing the last reference to an array or hash whose elements have other owners frees it and lowers each element's count by its number of occurrences |
| DynamicValues.Heap.constructor | src/dtl_sv.c:56-57 | the memory starts as Boot |
| DynamicValues.Heap.Alloc | src/dtl_dv.c:83-89 | allocates at a fresh address, as Allocate describes |
| DynamicValues.Heap.Null | src/dtl_dv.c:27-34 | the new state and result are those of NewNull |
| DynamicValues.Heap.IncRef | src/dtl_dv.c:62-64 | the new state is AfterIncRef of the old one |
| DynamicValues.Heap.DecRef | src/dtl_dv.c:65-70 | the new state is AfterDecRef of the old one |
| DynamicValues.Heap.Delete | src/dtl_dv.c:36-56 | the new state is AfterDelete of the old one, dispatching on the kind as dtl_dv_delete, dtl_sv_delete, dtl_av_delete and dtl_hv_delete do |
| DynamicValues.Heap.ReleaseEach | src/dtl_dv.c:78-81 | the new state is AfterReleaseAll of the old one |
| Scalars.NewScalarIsFresh | src/dtl_sv.c:67-96 | dtl_sv_new gives a fresh scalar of type NONE with count 1; nothing else changes |
| Scalars.SvType | src/dtl_sv.c:202-208 | a 4-bit type tag, NONE for NULL |
| Scalars.RetagSetsType | src/dtl_sv.c:879-896 | after a type change the tag reads back as the new type; every other flag bit, the count and the payload are kept |
| Scalars.RetagStringBuffer | src/dtl_sv.c:879-896 | the string buffer exists after a type change exactly when the new type is STR; it is kept from STR to STR and starts empty otherwise |
| Scalars.AfterSetTypeKeepsScalar | src/dtl_sv.c:879-896 | releasing the nested value only shrinks memory, and a scalar that survives it is still a scalar with no more references than before |
| Scalars.SetOnPlainScalar | src/dtl_sv.c:219-292 | a setter on a scalar holding no nested value sets the type and payload and changes nothing else; there the as-written and the corrected setters agree |
| Scalars.SetReleasesSharedValueOnce | src/dtl_sv.c:269-281 | set_dbl and set_bool (and the corrected other setters) release a shared nested value exactly once, store the payload and set the new type tag |
| Scalars.SetDvRetains | src/dtl_sv.c:320-328 | set_dv (retaining first) on a scalar holding no nested value retains the new value once, and to_dv returns it |
| Scalars.SetDvRetainFirstSameValue | src/dtl_sv.c:320-328 | setting the nested value already held, with the retain first, changes nothing at all |
| Scalars.SetReleasingFreesSharedValue | src/dtl_sv.c:219-227 | as written, a value setter on a scalar whose nested value (here of kind NULL) has count 2, so one other owner, frees that value |
| Scalars.SetDvSameValueDangles | src/dtl_sv.c:320-328 | as written, set_dv with the value the scalar already holds as its only owner frees it and leaves the scalar holding the freed address |
| Scalars.SetReleasing | src/dtl_sv.c:219-227 | the value setters as written: the new state is AfterSetReleasing, which releases the nested value and then again through set_type |
| Scalars.SetType | src/dtl_sv.c:879-896 | the new state is AfterSetType of the old one |
| Scalars.SetI32 | src/dtl_sv.c:219-227 | the new state is AfterSet with type I32: the nested value is released once (corrected, see Findings) |
| Scalars.SetU32 | src/dtl_sv.c:229-237 | the new state is AfterSet with type U32 (corrected, see Findings) |
| Scalars.SetI64 | src/dtl_sv.c:239-247 | the new state is AfterSet with type I64 (corrected, see Findings) |
| Scalars.SetU64 | src/dtl_sv.c:249-257 | the new state is AfterSet with type U64 (corrected, see Findings) |
| Scalars.SetFlt | src/dtl_sv.c:260-268 | the new state is AfterSet with type FLT (corrected, see Findings) |
| Scalars.SetDbl | src/dtl_sv.c:269-274 | the new state is AfterSet with type DBL |
| Scalars.SetBool | src/dtl_sv.c:276-281 | the new state is AfterSet with type BOOL |
| Scalars.SetPtr | src/dtl_sv.c:283-292 | the new state is AfterSet with the pointer and destructor (corrected, see Findings) |
| Scalars.SetText | src/dtl_sv.c:294-309 | the new state is AfterSetText; a NULL scalar changes nothing, while a NULL text still changes the type to STR, releasing a nested value and creating an empty buffer |
| Scalars.SetTextYields | src/dtl_sv.c:294-318 | on a scalar whose nested value has other owners: the type becomes STR, to_cstr gives the text (for a NULL text, the old STR buffer or the empty string), the count and the other flag bits are kept, the nested value loses exactly one reference, and no other cell changes |
| Scalars.SetBstr | src/dtl_sv.c:311-318 | the bytes between begin and end become the text; a missing or reversed range changes nothing |
| Scalars.SetDv | src/dtl_sv.c:320-328 | the new state is AfterSetDvRetainFirst: the new value is retained before the old one is released (corrected, see Findings) |
| Scalars.SetKeepsWF | src/dtl_sv.c:219-292 | a corrected setter on a live scalar, with a payload that suits its type, keeps memory well formed |
| Scalars.SetReleasingKeepsWF | src/dtl_sv.c:219-227 | the as-written setters keep memory well formed too: a double release frees cells but never breaks their shape |
| Scalars.SetTextKeepsWF | src/dtl_sv.c:294-309 | set_cstr on a scalar keeps memory well formed |
| Scalars.SetDvKeepsWF | src/dtl_sv.c:320-328 | set_dv (retaining first) keeps memory well formed |
| Scalars.MakeYields | src/dtl_sv.c:122-176 | make_* gives a fresh well-formed scalar with count 1 and the requested type and payload, the same as set_* on a new scalar; nothing else changes |
| Scalars.MakeTextYields | src/dtl_sv.c:186-192 | make_cstr gives a fresh STR scalar with count 1 holding the text, and to_cstr returns it |
| Scalars.MakeDvState | src/dtl_sv.c:194-200 | make_dv gives a fresh DV scalar with count 1 holding the value, which gains one reference; nothing else changes |
| Scalars.MakeDvThenDelete | src/dtl_sv.c:194-200 | make_dv followed by releasing the scalar restores every cell: the nested value is back at its old count |
| Scalars.DeleteDvScalar | src/dtl_sv.c:75-120 | deleting a scalar that holds a shared value frees the scalar and releases the value once |
| Scalars.MakeI32 | src/dtl_sv.c:122-128 | the new state and result are those of Make with type I32 |
| Scalars.MakeU32 | src/dtl_sv.c:130-136 | the new state and result are those of Make with type U32 |
| Scalars.MakeI64 | src/dtl_sv.c:138-143 | the new state and result are those of Make with type I64 |
| Scalars.MakeU64 | src/dtl_sv.c:145-152 | the new state and result are those of Make with type U64 |
| Scalars.MakeBool | src/dtl_sv.c:170-176 | the new state and result are those of Make with type BOOL |
| Scalars.MakeCstr | src/dtl_sv.c:186-192 | the new state and result are those of MakeText; a NULL text gives a STR scalar holding the empty string |
| Scalars.MakeDvScalar | src/dtl_sv.c:194-200 | the new state and result are those of MakeDv |
| Scalars.WrapU32 | src/dtl_sv.c:383-434 | the result is a u32 congruent to the input modulo 2^32 |
| Scalars.WrapI32 | src/dtl_sv.c:332-382 | the result is an i32 congruent to the input modulo 2^32 |
| Scalars.GettersAreModular | src/dtl_sv.c:332-540 | the integer getters fail exactly on NULL and on the types other than the integral ones, FLT and DBL; on the integral types (bool included) each getter is the C conversion of the payload's integer |
| Scalars.NarrowingAgreesWithWidening | src/dtl_sv.c:332-540 | to_u32 is to_u64 reduced modulo 2^32, and to_i32 is its signed reading |
| Scalars.MakeThenGet | src/dtl_sv.c:122-152 | each integer make_* is read back exactly by the getter of its own type |
| Scalars.ToBoolMeaning | src/dtl_sv.c:651-680 | on the integral types (bool included) to_bool is "the integer is not zero"; a string gives true exactly when it is "true"; NULL, NONE, PTR and DV give false |
| Scalars.ToCstr | src/dtl_sv.c:715-743 | a string exactly for BOOL and STR scalars, NULL otherwise |
| Scalars.ToCstrMeaning | src/dtl_sv.c:715-743 | a BOOL scalar gives "true" or "false" as to_bool reads it, a STR scalar gives its own buffer, and NULL and every other type give NULL |
| Scalars.ToStringMeaning | src/dtl_sv.c:745-812 | the text of an integer scalar is a decimal numeral that parses back to the integer; bool and string scalars give what to_cstr gives; NONE gives "(undefined)" and DV gives "" |
| Scalars.ToStringOfDouble | src/dtl_sv.c:745-812 | a double renders as its fixed-point text, trimmed (by ZtrimSigned, and by Ztrim as written) |
| Scalars.ToStringNegativeDouble | src/dtl_sv.c:745-812 | a negative double with trailing zeros renders untrimmed as written, and trimmed like its magnitude with the corrected trimming |
| Scalars.ToDv | src/dtl_sv.c:814-824 | not NULL only for a DV scalar, and then its nested value |
| Scalars.SvDvType | src/dtl_sv.c:210-215 | the kind of the nested value, INVALID when there is none |
| Scalars.ViewsPartition | src/dtl_sv.c:826-873 | at most one of to_sv, to_av and to_hv is not NULL; it is the one matching the nested value's kind, and it returns that value |
| Arrays.NewArrayIsEmpty | src/dtl_av.c:55-66 | dtl_av_new gives a fresh array with count 1 and no slots; nothing else changes |
| Arrays.Value | src/dtl_av.c:125-130 | the element at the index, NULL when out of range or for a NULL array |
| Arrays.SetThenGet | src/dtl_av.c:107-130 | after set on an array that survives the release, get finds slot `i`, value returns `v`, length is at least `i + 1`, the other old slots keep their values and the gap holds the singleton; a set that releases nothing always leaves the array |
| Arrays.LengthTracksUpdates | src/dtl_av.c:132-184 | length grows by one on push and unshift (and value then finds the new element at the end or the front), shrinks by one on pop and shift of a non-empty array, becomes the larger of the old length and `n` on extend, and is 0 after clear |
| Arrays.Exists | src/dtl_av.c:185-190 | true exactly when the index is in range |
| Arrays.SetSameValue | src/dtl_av.c:107-116 | writing a slot's own occupant releases nothing and changes nothing |
| Arrays.SetReleasesOldOccupant | src/dtl_av.c:107-116 | writing over a shared occupant lowers its count by one and stores the new value; nothing else changes |
| Arrays.SetPastEnd | src/dtl_av.c:107-116 | a write past the end fills the gap with the singleton and releases nothing |
| Arrays.SetOverSingleton | src/dtl_av.c:107-116 | writing into a singleton slot releases nothing |
| Arrays.PushAppends | src/dtl_av.c:132-140 | push appends the value; with retain it gains exactly one reference, otherwise none |
| Arrays.PushThenPop | src/dtl_av.c:132-146 | pop undoes a push without retain and returns the pushed value |
| Arrays.UnshiftThenShift | src/dtl_av.c:148-158 | shift undoes an unshift and returns the value |
| Arrays.PopShiftTransfer | src/dtl_av.c:141-153 | pop and shift hand out the end element with its count unchanged and keep the rest in order |
| Arrays.NullArray | src/dtl_av.c:107-190 | on a NULL array every accessor gives its null answer and nothing changes |
| Arrays.MakeOwns | src/dtl_av.c:68-81 | make owns exactly the first len values, without retaining them; a negative length gives NULL |
| Arrays.ReleaseArray | src/dtl_av.c:83-105 | releasing the last reference to an array frees it and lowers each element's count by its number of slots |
| Arrays.PushRetainedThenRelease | src/dtl_av.c:132-140 | a value pushed with retain into an array that is then released is back at its count from before the push |
| Arrays.New | src/dtl_av.c:55-66 | the new state and result are those of NewArray |
| Arrays.Set | src/dtl_av.c:107-116 | the new state is AfterSet; the result is the slot written, or none for NULL or a negative index |
| Arrays.Push | src/dtl_av.c:132-140 | the new state is AfterPush |
| Arrays.PopLast | src/dtl_av.c:141-146 | the new state and result are those of Pop |
| Arrays.ShiftFirst | src/dtl_av.c:148-153 | the new state and result are those of Shift |
| Arrays.Unshift | src/dtl_av.c:154-158 | the new state is AfterUnshift |
| Arrays.Extend | src/dtl_av.c:162-171 | the new state is AfterExtend (extend and fill) |
| Arrays.Clear | src/dtl_av.c:173-177 | the new state is AfterClear: each slot released in order, then no slots |
| Arrays.SetKeepsWF | src/dtl_av.c:107-116 | set keeps memory well formed |
| Arrays.ReshapesKeepWF | src/dtl_av.c:132-171 | push (retaining or not), pop, shift, unshift and extend each keep memory well formed, on NULL and on a live array |
| Arrays.ClearKeepsWF | src/dtl_av.c:173-177 | clear keeps memory well formed |
| Arrays.MakeArray | src/dtl_av.c:68-81 | the new state and result are those of Make, built by growing and writing each slot in a loop |
| Arrays.WriteSlots | src/dtl_av.c:76-78 | writing vs[i] into slot i for each i below len, in order, turns the extended array into one holding the first len values, and memory stays well formed |
| Arrays.Sort | src/dtl_av.c:192-203 | NULL gives INVALID_ARGUMENT and a key function gives NOT_IMPLEMENTED, both leaving memory alone; otherwise the slots become the result of SortFrom with the element restored |
| InsertionSorting.SearchFound | src/dtl_av.c:247-275 | where the inner walk stops, the element in front may stay in front, and every element passed may not |
| InsertionSorting.InsertionSort | src/dtl_av.c:207-283 | the error code and the array contents are SortFrom of the input from pass 1 |
| InsertionSorting.SortPass | src/dtl_av.c:214-279 | one outer pass: either the run goes on from u+1 on the new contents, or it ends here with this error and these contents |
| InsertionSorting.Walk | src/dtl_av.c:242-275 | the inner walk leaves the error code and contents that PassResult gives |
| InsertionSorting.SortPermutes | src/dtl_av.c:207-283 | a run that ends without error, and every run that restores the element, keeps the multiset of elements |
| InsertionSorting.SortOrders | src/dtl_av.c:207-283 | under a strict weak order, a run that ends without error leaves the elements ordered, ascending or, with reverse, descending |
| InsertionSorting.SortCorrect | src/dtl_av.c:192-283 | a successful sort is an ordered permutation of its input |
| InsertionSorting.SortSucceedsOnlyOnScalars | src/dtl_av.c:222-236 | a run that ends without error found every element to be a scalar |
| InsertionSorting.NonScalarFails | src/dtl_av.c:222-236 | a sort of at least two elements that meets a non-scalar does not succeed |
| InsertionSorting.EqualKeysSwap | src/dtl_av.c:214-279 | the sort is not stable: two elements with equal keys trade places in an ascending sort, and stay in a descending one |
| InsertionSorting.SortErrorLosesElement | src/dtl_av.c:247-275 | as written, a comparison error in the inner walk on [10, 12, 11] leaves [10, 12, 12]; with the element put back it leaves [10, 11, 12] |
| Hashes.NewHashIsEmpty | src/dtl_hv.c:30-64 | dtl_hv_new gives a fresh hash with count 1 and no entries; nothing else changes |
| Hashes.StoreThenLookup | src/dtl_hv.c:76-91 | after a store the key holds the value, every other key is unchanged, and keys stay distinct |
| Hashes.RemoveThenLookup | src/dtl_hv.c:106-113 | after a removal the key is absent, every other key is unchanged, and keys stay distinct |
| Hashes.GetCstr | src/dtl_hv.c:93-104 | the value stored under the key when it is present, NULL otherwise or for a NULL hash |
| Hashes.Length | src/dtl_hv.c:140-147 | 0 for NULL, otherwise the number of keys |
| Hashes.ExistsCstr | src/dtl_hv.c:149-156 | true exactly when the key is present |
| Hashes.SetNewKey | src/dtl_hv.c:76-91 | storing under a new key releases nothing; the value gains one reference exactly when retain is set |
| Hashes.SetReleasesOldOccupant | src/dtl_hv.c:76-91 | storing over a shared occupant lowers its count by exactly one, overwrites the entry in place and keeps the keys |
| Hashes.SetSameValue | src/dtl_hv.c:76-91 | storing the value a key already holds leaves the entries alone; with retain it still gains a reference |
| Hashes.RemoveTransfers | src/dtl_hv.c:106-113 | remove hands back the stored value, drops the key, keeps every other key's value and changes no count |
| Hashes.SetThenGet | src/dtl_hv.c:76-104 | when the old occupant survives its release, get after set returns the value stored and other keys are unaffected |
| Hashes.NullHash | src/dtl_hv.c:76-163 | on a NULL hash: length 0, no keys, every accessor NULL, nothing changes |
| Hashes.ReleaseHashAfterSet | test/testsuite_dtl_hv.c:20-44 | a value stored under a new key ends one reference below where the store left it once the hash is released |
| Hashes.KeysYields | src/dtl_hv.c:163-197 | keys gives a new array holding one new string scalar per key, in entry order, each owned once by the array; everything that existed before is unchanged |
| Hashes.New | src/dtl_hv.c:30-44 | the new state and result are those of NewHash |
| Hashes.SetCstr | src/dtl_hv.c:76-91 | the new state is AfterSetCstr, and memory stays well formed |
| Hashes.SetSlotLeaksOccupant | src/dtl_hv.c:76-91 | as written, overwriting a key whose value has the hash as its only owner stores the new value but leaves the old one alive with its count unchanged; the corrected store frees it |
| Hashes.SetCstrKeepsWF | src/dtl_hv.c:76-91 | set_cstr (release of the old occupant, store, optional retain) keeps memory well formed, keys included |
| Hashes.RemoveKeepsWF | src/dtl_hv.c:106-113 | removing a key keeps memory well formed |
| Hashes.Remove | src/dtl_hv.c:106-113 | the new state and result are those of RemoveCstr |
| Hashes.KeysArray | src/dtl_hv.c:163-197 | the new state and result are those of Keys, built by pushing one key scalar at a time |
| NumText.IntToDecimalRoundTrip | src/dtl_sv.c:745-812 | reading back the decimal rendering of an integer gives the integer |
| NumText.IntToDecimalInjective | src/dtl_sv.c:745-812 | distinct integers render differently |
| NumText.ZtrimDropsOnlyZeros | src/dtl_sv.c:898-937 | trimming only drops trailing zeros and at most the '.' in front of them |
| NumText.ZtrimLeavesNonNumbers | src/dtl_sv.c:898-912 | a string with a character other than a digit before its first '.' is left as it is |
| NumText.ZtrimIdempotent | src/dtl_sv.c:898-937 | trimming twice gives what trimming once gives |
| NumText.ZtrimFixed | src/dtl_sv.c:898-937 | on a non-negative fixed-point rendering, the integer part and the significant fraction digits are kept |
| NumText.ZtrimInPlace | src/dtl_sv.c:898-937 | the buffer holds Ztrim of the input string, NUL-terminated |
| NumText.ZtrimKeepsNegative | src/dtl_sv.c:898-912 | as written, a string starting with '-' is never trimmed |
| NumText.ZtrimSignedNegative | src/dtl_sv.c:898-937 | the corrected trimming trims a negative rendering exactly like its magnitude |

## Left out

- Floating-point values are opaque. The model does not cover their arithmetic, the float-to-integer casts in the getters (they only report a float cast), `dtl_sv_to_flt` or `dtl_sv_to_dbl` (src/dtl_sv.c:543-650).
- `dtl_sv_make_flt`, `dtl_sv_make_dbl` and `dtl_sv_make_ptr` are covered only through `Scalars.Make` and `MakeYields`. They have no method of their own.
- The `"%f"` and `"%p"` renderings used by `to_string` are parameters of `Scalars.ToString`.
- `dtl_sv_to_ptr` is not modelled. It only reads a field.
- The byte-string types are not modelled.
- The scalar comparison `dtl_sv_lt` is not modelled. It is a parameter of the sort, and so is the kind of each element.
- `adt_ary` and `adt_hash` are modelled by their documented behaviour, as sequences.
  - Negative indices into arrays are not modelled. `Arrays.Set` gives none for them.
  - The bucket layout of the hash is not modelled. Its keys are ordered by insertion.
- The hash iterator (`dtl_hv_iter_init`, `dtl_hv_iter_next_cstr`, src/dtl_hv.c:115-135) is not modelled. It keeps a cursor inside `adt_hash`.
- Allocation never fails. The `malloc` failure paths are not modelled.
- Reference counts are unbounded. The 32-bit wrap of `u32RefCnt` is not modelled.
- Cycles of references are not collected, as in C. The safety lemmas do not assume their absence. Use after free is outside the model: a freed address is simply absent.
- Concurrency is not modelled.
- `Hashes.SetCstr`: `dtl_hv_set_cstr` compares the slot pointer returned by `adt_hash_get` with the new value, and releases through that slot pointer. `Hashes.SetCstr` models the corrected store, which compares and releases the value held in the slot. The as-written store is `Hashes.AfterSetCstrSlot`. It releases no value, and the count it lowers in the table's own memory is outside the model. See Findings.
- `dtl_dv_ref_dec` and `dtl_dv_ref_inc` are called by src/dtl_sv.c (lines 111, 222-286, 326 and 884), but no file of this model defines them. Only `dtl_dv_dec_ref` and `dtl_dv_inc_ref` are declared (inc/dtl_dv.h:40-41). The model takes the first two as aliases of the last two. The two scalar Findings rest on that reading.
- `NumText.ZtrimInPlace`: when the string has no '.', the C backward scan compares against a null pointer. On a string of zeros it then reads before the buffer. The model's scan stops at the start instead. The string is left as it is either way.
- `dtl_av_delete`, `dtl_av_destroy`, `dtl_hv_delete` and `dtl_hv_destroy` are not separate members. They are covered by `DynamicValues.Heap.Delete`.
- `InsertionSorting.SortPass` and `InsertionSorting.Walk` are the outer and inner loop bodies of `dtl_av_insertion_sort`, moved into their own methods.
- `Arrays.WriteSlots` is the loop of `dtl_av_make`, moved into its own method.
- `Scalars.ToString`: freeing the returned string is left to the caller, as in C.
- `Scalars.SetText`: the behaviour of `adt_str_set_cstr` on a NULL text is taken to leave the buffer unchanged. `adt_str` is not part of this model.
- `Scalars.MakeDvScalar`: inc/dtl_sv.h:120 declares `dtl_sv_make_dv` with a second argument, `autoIncRef`. The definition at src/dtl_sv.c:194-200 takes only the value and always retains it. The model follows the definition, and `autoIncRef` is not modelled.
- `Arrays.Get` and `Arrays.Length` are plain accessors. Their meaning is stated by `Arrays.SetThenGet` and `Arrays.LengthTracksUpdates`.

## Findings

| source | as written | input that shows it | evidently intended | confidence | as-written member | corrected member |
|---|---|---|---|---|---|---|
| src/dtl_sv.c:219-292 | set_i32, set_u32, set_i64, set_u64, set_flt and set_ptr release a nested DV value, and then set_type releases it again | a DV scalar holding a value with count 2, then set_i32: the value is freed although another owner still holds it | release the nested value once, as set_dbl and set_bool do | high, not executed | Scalars.SetReleasingFreesSharedValue | Scalars.SetReleasesSharedValueOnce |
| src/dtl_sv.c:320-328 | set_dv releases the old nested value (in set_type) before it retains the new one | a scalar holding `d` as its only owner, then set_dv with `d`: `d` is freed, and the scalar keeps a dangling reference | retain the new value before releasing the old one | high, not executed | Scalars.SetDvSameValueDangles | Scalars.SetDvRetainFirstSameValue |
| src/dtl_av.c:253-258 | an error from the comparison in the inner walk returns with the held element still out of the array | slots [10, 12, 11], ascending, where comparing 10 with 11 fails: the array becomes [10, 12, 12], and 11 is lost | put the held element back into the hole before returning | medium, not executed | InsertionSorting.SortErrorLosesElement | InsertionSorting.SortPermutes |
| src/dtl_sv.c:898-912 | ztrim stops at the leading '-', so a negative rendering is never trimmed | a double scalar whose "%f" rendering is "-1.500000": to_string gives "-1.500000", where 1.5 gives "1.5" | skip a leading minus sign and trim the magnitude | medium, not executed | NumText.ZtrimKeepsNegative | NumText.ZtrimSignedNegative |
| src/dtl_hv.c:80-84 | set_cstr passes the slot pointer returned by `adt_hash_get` to `dtl_dv_dec_ref`, not the value stored in that slot (get_cstr, lines 97-101, reads through it) | a key whose value has the hash as its only owner, overwritten with another value: the old value is never released and leaks, and a count inside the table's own memory is lowered | release the value stored in the slot | high, not executed | Hashes.SetSlotLeaksOccupant | Hashes.SetReleasesOldOccupant |
