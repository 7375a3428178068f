# image-size dispatch, modelled in Dafny

This project models the public entry point of the image-size library,
`lib/index.ts`. It covers three pieces:

- `lookup`, the dispatcher that turns an image's bytes into a size result;
- the disabled-type configuration that `lookup` reads, with its setter `disableTypes`;
- the `types` list of handler names and the `imageSize` wrapper.

`lookup` runs a fixed sequence of steps:

1. It detects the type from the bytes.
2. It refuses an unknown type.
3. It refuses a disabled type, naming it.
4. It requires a registered handler.
5. It calls that handler.
6. It refuses an `undefined` answer.
7. It fills in the result's `type` when the handler left it unset.

The signature detector (`lib/detector`) and the per-format handlers
(`lib/types/index`) are not part of this model. They are parameters:

- `Detector` is an arbitrary function from bytes to an optional type name.
- `HandlerTable` is an ordered list of (name, handler) pairs. This mirrors a
  JavaScript object, whose keys are ordered and distinct.
- A handler's `calculate` is an arbitrary function. It returns a size,
  `undefined` (`None`), or a thrown error (`Failure`).

Every property below therefore holds for every detector and every handler.

Files:
- `wrappers.dfy` (module `Wrappers`): `Option` for `undefined`/`null`, `Result` for a thrown error.
- `image_size.dfy` (module `ImageSize`): the data model, `IndexOf` (JavaScript's
  `indexOf`), `Types`, `HandlerIndex`, `Lookup`, `ImageSizeOf`, and the class
  `GlobalOptions`, which holds the mutable `disabledTypes`.
- `lookup_properties.dfy` (module `LookupProperties`): the properties of `lookup`.

`lookup`'s own logic reads the disabled list and never changes it, and it
keeps no state between calls. `GlobalOptions.LookupConfigured` states that
the configuration is unchanged after a call, and `LookupTwice` states that
two calls in a row agree. This determinism belongs to the dispatch logic: the
detector and the handlers are modelled as mathematical functions (see
"## Left out").

The result shape (`SizeResult`) follows the library's result interface. That
interface file is not part of this model. Width and height are plain
integers because `lookup` never inspects them. No positivity is claimed:
`lookup` does not check that dimensions are positive.

## Model

| member | source | states |
|---|---|---|
| ImageSize.IndexOf | lib/index.ts:32 | the result is -1 exactly when the value is absent; otherwise it is a position holding the value with no earlier occurrence (the first match, as `indexOf` returns) |
| ImageSize.Types | lib/index.ts:78 | `types` lists one name per handler entry, in table order, and position i holds entry i's key |
| ImageSize.IsDisabled | lib/index.ts:32 | `indexOf(type) > -1` holds exactly when the type is a member of the disabled list |
| ImageSize.StampType | lib/index.ts:40 | width, height, orientation and images are kept; the handler's own tag is kept when set, and the detected type fills an unset tag |
| ImageSize.HandlerIndex | lib/index.ts:37-38 | there is no handler exactly when no entry has the detected name; a found entry has that name, and with distinct keys it is the only one |
| ImageSize.Lookup | lib/index.ts:27-50 | undetected bytes give the unsupported error without a type; a detected type on the disabled list gives the disabled error naming it; an enabled type with no handler gives the unsupported error with that type; every success carries a type tag |
| ImageSize.ImageSizeOf | lib/index.ts:61-67 | `imageSize` passes no file path, so an unsupported error from it never names a file |
| ImageSize.GlobalOptions.constructor | lib/index.ts:15-18 | the disabled list starts empty |
| ImageSize.GlobalOptions.DisableTypes | lib/index.ts:72-74 | the disabled list becomes exactly the given list: it is replaced, not merged |
| ImageSize.GlobalOptions.LookupConfigured | lib/index.ts:27-50 | `lookup` reads the current configuration and leaves it unchanged |
| LookupProperties.DisableThenLookup | lib/index.ts:72-74 | after `disableTypes(ts)`, a detected type in ts is refused by name, only types in ts are refused whatever the earlier list held, and after `disableTypes([])` nothing is refused as disabled |
| LookupProperties.LookupTwice | lib/index.ts:27-50 | two `lookup` calls in a row with no `disableTypes` between them give the same outcome and leave the configuration unchanged |
| LookupProperties.UndetectedIsUnsupported | lib/index.ts:29-31 | with no detected type the outcome is the unsupported error without a type, the same for every handler table and every disabled list, so no handler is consulted |
| LookupProperties.DisabledIsRefused | lib/index.ts:32-34 | a detected type on the disabled list gives the disabled error naming that type, the same for every handler table, so no handler is consulted |
| LookupProperties.DisabledBeforeMissingHandler | lib/index.ts:32-37 | a disabled type that has no handler is still reported as disabled: the disabled check precedes the handler check |
| LookupProperties.DisabledErrorExactly | lib/index.ts:32-34 | the disabled error naming t arises if and only if t was detected and is on the disabled list |
| LookupProperties.UnsupportedExactly | lib/index.ts:37-49 | the unsupported error arises if and only if nothing was detected, or the enabled detected type has no handler, or its handler returned `undefined`; the error carries the detection and the file path |
| LookupProperties.HandlerErrorExactly | lib/index.ts:37-38 | a handler's thrown error reaches the caller unchanged, and only from the handler of an enabled detected type |
| LookupProperties.SuccessComesFromHandler | lib/index.ts:38-41 | a success implies the type was detected and enabled, its handler returned a size, and the result equals that size except for the type tag; the handler's own tag wins and the detected type fills an unset tag |
| LookupProperties.HandlerSizeIsReturned | lib/index.ts:38-41 | conversely, when the enabled detected type's handler returns a size, `lookup` succeeds with width, height, orientation and images unchanged and the type set by the `??` rule |
| LookupProperties.OnlyMembershipMatters | lib/index.ts:32 | two disabled lists with the same members give the same outcome for every input: order and repetition do not matter |
| LookupProperties.MoreDisabledOnlyRefuses | lib/index.ts:32-34 | adding types to the disabled list leaves each outcome unchanged or turns it into the disabled error |
| LookupProperties.EmptyListEnablesAll | lib/index.ts:15-18 | with the empty list (the start-up value, and what `disableTypes([])` installs) no type is refused as disabled, and the outcome matches any earlier list that does not name the detected type |
| LookupProperties.TypesAreTheHandledNames | lib/index.ts:37 | a name is in `types` exactly when `lookup` finds a handler for it, and with distinct keys each name appears once |

## Left out

- The `queue` and `setConcurrency` (lib/index.ts:7-8, 75-77) are left out. They throttle file-descriptor use, which is I/O plumbing that `lookup` never touches.
- The `module.exports` compatibility line (lib/index.ts:53) is left out. So is the `instanceof Uint8Array` check in `imageSize` (lib/index.ts:65-69): Dafny's static types already guarantee the input is a byte sequence.
- The unused `disabledFS` option (lib/index.ts:11, 16) is left out.
- Error message text is left out. `lookup`'s two `TypeError`s (lib/index.ts:33, 47) are the constructors `Disabled` and `Unsupported`. `Unsupported` keeps the two values its message shows: the detected type and the file path. `HandlerError` carries whatever a handler throws, which need not be a `TypeError`. The "invalid invocation" `TypeError` of `imageSize` (lib/index.ts:69) is left out with the `instanceof` check.
- A throw from the detector is not modelled. `detector(input)` (lib/index.ts:29) runs unguarded, so such a throw would leave `lookup` unchanged, but the `Detector` parameter here always returns a value.
- The detector and the handlers are assumed deterministic and free of side effects. A real handler receives the file path (lib/index.ts:38) and could read the file or keep state between calls; the agreement of repeated calls is a property of the dispatch logic only.
- ImageSize.GlobalOptions.DisableTypes: stores a value copy of the list. The source (lib/index.ts:73) keeps the caller's array by reference, so a later mutation of that array by the caller (a `push`, say) changes which types are refused without a new `disableTypes` call; a Dafny `seq` cannot show that aliasing.
- The signature detector and the handlers' parsing are not part of this model. They are uninterpreted parameters, and so is each handler's `validate`.
- JavaScript's `in` operator also finds inherited properties such as "toString". The model treats `type in typeHandlers` as a key lookup. This matters only for a detector that returns such a name. The model assumes it does not: the detected value is looked up in the disabled list (lib/index.ts:32), which is declared as a list of image type names (lib/index.ts:12).
- `lookup` writes the filled-in type into the handler's own result object. The model returns an updated copy instead, because handler results are immutable values here.
