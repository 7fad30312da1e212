# Droid-ify: signed index entry validation and screen back stack

This project models two sequential pieces of the Droid-ify F-Droid client in Dafny and proves properties of them.

**The signed index-entry validator** (`EntryValidator`, module `EntryValidation`). A downloaded index jar is accepted only through a fixed sequence. First the member `entry.json` is looked up, and a missing one is an error. Then its stream is parsed. Then the fingerprint of its code signer's certificate is derived. Then `check` is applied to the repository's pinned fingerprint and the acquired one; when it is **true**, a `ValidationException` naming both fingerprints is raised. Only after all of that is the caller's sink given the parsed entry and the fingerprint. `Validate` is a function. It returns the trace of steps it performs (look-up, parse, fingerprint, check, sink) together with its outcome, so the order of the steps and the "sink only on success, exactly once" rule can be stated. The jar is a map from member names to members. A member carries its bytes and its signer's fingerprint (absent when the signer extensions cannot give one). The external index parser is a function parameter from bytes to parsed or malformed, and it is applied to the member's bytes. `Fingerprint.check` is a function parameter, and nothing is assumed about it: the model keeps the code's polarity and does not treat `check` as equality. Because `Validate` is a function of its inputs, it cannot modify the repository, and calling it twice on the same inputs gives the same run.

**The pure and list logic of `ScreenActivity`**:
- The `Intent.packageName` classifier (module `IntentPackage`), modelled over a URI record of optional parts.
- The `FragmentStackItem` parcel encoding and `CREATOR` (module `FragmentParcel`). The write-then-read round trip is proved.
- The activity's fragment back stack (module `Screen`, class `ScreenActivity`). It has push, pop, clear on the `Updates` intent, the up-indicator rule, the `handleIntent` navigation guard, and saving and restoring the stack.

Points of the code's behaviour that the model keeps as written:
- The code parses `entry.json` before it derives the signer fingerprint. So a parse failure is reported even when the signer is missing or would be rejected.
- The code rejects when `check(...)` is true. The model keeps that polarity and does not assume `check` is equality or its negation.
- The code shown raises no error of its own for a missing signer. The model lets the fingerprint derivation fail (`UnsignedEntry`). That failure comes after parsing, in the code's order.
- The jar opened at core/data/src/main/java/com/looker/core/data/fdroid/sync/signature/EntryValidator.kt:39 is never closed. Only the member stream is closed, at line 46.

## Model

| member | source | states |
|---|---|---|
| EntryValidation.Validate | core/data/src/main/java/com/looker/core/data/fdroid/sync/signature/EntryValidator.kt:22-30 | The sink is reached iff `entry.json` exists, parses, has a signer fingerprint and `check` is false. It then receives that member's entry and fingerprint. The trace holds exactly one sink call on success and none on any failure, and that call is the last step. The first step is the look-up of `entry.json`. A successful run's trace is exactly: look-up, parse of that member's bytes, fingerprint derivation, check, sink. A rejected run's trace is the same four steps before the sink. |
| EntryValidation.GetEntryAndFingerprint | core/data/src/main/java/com/looker/core/data/fdroid/sync/signature/EntryValidator.kt:36-53 | It succeeds iff `entry.json` is present, parses and has a signer fingerprint. It then returns that member's entry and fingerprint. Its trace is a prefix of look-up, parse of that member's bytes, then fingerprint derivation. It neither checks nor calls the sink, and it never raises the rejection. |
| EntryValidation.ValidationOrder | core/data/src/main/java/com/looker/core/data/fdroid/sync/signature/EntryValidator.kt:23-29 | Only `entry.json` is ever looked up. The parser is applied to exactly that member's bytes. Whenever a trace holds both, parsing comes before fingerprinting, and fingerprinting comes before the check. A `check` that returns true always ends in rejection. (That every step is present in a run that reaches the check is stated by `Validate`.) |
| EntryValidation.MissingEntryFails | core/data/src/main/java/com/looker/core/data/fdroid/sync/signature/EntryValidator.kt:40-42 | With no `entry.json`, the run is the look-up alone and fails with "No entry for: entry.json". |
| EntryValidation.ParseFailureWins | core/data/src/main/java/com/looker/core/data/fdroid/sync/signature/EntryValidator.kt:44-51 | A malformed `entry.json` fails with the parse error after the look-up and the parse only. Fingerprinting, the check and the sink never happen, whatever the signer. |
| EntryValidation.UnsignedEntryFails | core/data/src/main/java/com/looker/core/data/fdroid/sync/signature/EntryValidator.kt:44-51 | A parsed entry with no derivable signer fingerprint fails before any check or sink. |
| EntryValidation.CheckTrueRejects | core/data/src/main/java/com/looker/core/data/fdroid/sync/signature/EntryValidator.kt:24-28 | When `check(pinned, acquired)` is true, validation fails with the rejection. The sink is not called, and the message contains both fingerprints. |
| EntryValidation.RejectionMessageNamesBoth | core/data/src/main/java/com/looker/core/data/fdroid/sync/signature/EntryValidator.kt:25-27 | The rejection message contains the expected fingerprint and the acquired fingerprint. |
| EntryValidation.Message | core/data/src/main/java/com/looker/core/data/fdroid/sync/signature/EntryValidator.kt:25-42 | Only the missing-entry and rejection failures carry a message of the validator's own. |
| EntryValidation.OnlyEntryJsonMatters | core/data/src/main/java/com/looker/core/data/fdroid/sync/signature/EntryValidator.kt:33-46 | Two jars that agree on `entry.json` validate identically, given parsers that agree on its bytes. |
| EntryValidation.SinkCalls | core/data/src/main/java/com/looker/core/data/fdroid/sync/signature/EntryValidator.kt:29 | The sink calls of a trace are sink steps drawn from that trace. A trace with no sink step has none. |
| EntryValidation.SinkCallsAppend | core/data/src/main/java/com/looker/core/data/fdroid/sync/signature/EntryValidator.kt:29 | The sink calls of two traces joined together are those of each trace, in order. |
| IntentPackage.PackageName | app/src/main/kotlin/com/looker/droidify/screen/ScreenActivity.kt:287-309 | The result is never empty. It is always the scheme-specific part, the `id` parameter or the last path segment of the intent's URI. A web link yields a name only from an F-Droid host. |
| IntentPackage.IsFdroidHost | app/src/main/kotlin/com/looker/droidify/screen/ScreenActivity.kt:299 | Every accepted host ends with `f-droid.org`. |
| IntentPackage.EndsWith | app/src/main/kotlin/com/looker/droidify/screen/ScreenActivity.kt:299 | Kotlin's case-sensitive `endsWith`: the last characters of the string are the suffix. |
| IntentPackage.NullIfEmpty | app/src/main/kotlin/com/looker/droidify/screen/ScreenActivity.kt:292 | The result is present iff the input is present and non-empty, and it is then the input. |
| IntentPackage.FdroidHostIsDomainOrSubdomain | app/src/main/kotlin/com/looker/droidify/screen/ScreenActivity.kt:299 | A host is accepted iff it is `f-droid.org` or some name followed by `.f-droid.org`. |
| IntentPackage.PackageSchemes | app/src/main/kotlin/com/looker/droidify/screen/ScreenActivity.kt:291-293 | `package` and `fdroid.app` give the scheme-specific part, or null when it is empty. |
| IntentPackage.MarketScheme | app/src/main/kotlin/com/looker/droidify/screen/ScreenActivity.kt:294-296 | `market` with host `details` gives the `id` parameter, or null when it is empty. `market` with any other host gives null. |
| IntentPackage.WebSchemes | app/src/main/kotlin/com/looker/droidify/screen/ScreenActivity.kt:297-304 | `http` and `https` give the last path segment exactly for F-Droid hosts. Other hosts, and a missing host, give null. |
| IntentPackage.OtherSchemes | app/src/main/kotlin/com/looker/droidify/screen/ScreenActivity.kt:289-308 | No URI, no scheme, or any other scheme gives null. |
| IntentPackage.LookalikeHostRejected | app/src/main/kotlin/com/looker/droidify/screen/ScreenActivity.kt:299-302 | `https://evilf-droid.org/...` names no package. |
| IntentPackage.SubdomainAccepted | app/src/main/kotlin/com/looker/droidify/screen/ScreenActivity.kt:299-300 | `https://www.f-droid.org/<name>` names `<name>`. |
| FragmentParcel.PresenceFlag | app/src/main/kotlin/com/looker/droidify/screen/ScreenActivity.kt:72 | The flag byte is nonzero iff the payload is present. |
| FragmentParcel.Encode | app/src/main/kotlin/com/looker/droidify/screen/ScreenActivity.kt:70-76 | The values written are the class name, two flags, and one value per present payload. The class name comes first. |
| FragmentParcel.Decode | app/src/main/kotlin/com/looker/droidify/screen/ScreenActivity.kt:81-90 | An item is read only from a non-null class name at the position; a null name is the `!!` failure. Reading moves forward at most five values and never past the end. A payload is read only after a nonzero presence byte. |
| FragmentParcel.DecodeEncode | app/src/main/kotlin/com/looker/droidify/screen/ScreenActivity.kt:70-90 | Whatever surrounds it, an encoded item reads back as the same item: the class name, and each payload present iff it was written. Reading ends right after the item. |
| FragmentParcel.EncodedFlags | app/src/main/kotlin/com/looker/droidify/screen/ScreenActivity.kt:72-74 | The two presence bytes written are 1 or 0, as each payload is present or absent. |
| FragmentParcel.Parcel.constructor | app/src/main/kotlin/com/looker/droidify/screen/ScreenActivity.kt:70 | A new parcel is empty, positioned at its start. |
| FragmentParcel.Parcel.Write | app/src/main/kotlin/com/looker/droidify/screen/ScreenActivity.kt:71-75 | A write appends one value and leaves the position at the end. |
| FragmentParcel.Parcel.SetDataPosition | app/src/main/kotlin/com/looker/droidify/screen/ScreenActivity.kt:81 | It moves the read position and keeps the data. |
| FragmentParcel.Parcel.ReadString | app/src/main/kotlin/com/looker/droidify/screen/ScreenActivity.kt:82 | It reads a string at the position; null at the end or on another kind of value. |
| FragmentParcel.Parcel.ReadByte | app/src/main/kotlin/com/looker/droidify/screen/ScreenActivity.kt:84-87 | It reads a byte at the position; 0 at the end or on another kind of value. |
| FragmentParcel.Parcel.ReadBundle | app/src/main/kotlin/com/looker/droidify/screen/ScreenActivity.kt:84 | `Bundle.CREATOR` succeeds exactly when a bundle is at the position, and then moves past it. |
| FragmentParcel.Parcel.ReadSavedState | app/src/main/kotlin/com/looker/droidify/screen/ScreenActivity.kt:86-88 | `Fragment.SavedState.CREATOR` succeeds exactly when a saved state is at the position, and then moves past it. |
| FragmentParcel.WriteToParcel | app/src/main/kotlin/com/looker/droidify/screen/ScreenActivity.kt:70-76 | It appends the item's encoding to the parcel. |
| FragmentParcel.CreateFromParcel | app/src/main/kotlin/com/looker/droidify/screen/ScreenActivity.kt:81-90 | It reads from the current position exactly what `Decode` specifies, and fails where `Decode` does. |
| FragmentParcel.ParcelRoundTrip | app/src/main/kotlin/com/looker/droidify/screen/ScreenActivity.kt:70-90 | Writing to a fresh parcel and reading back from position 0 restores the item. |
| Screen.TabsFragment | app/src/main/kotlin/com/looker/droidify/screen/ScreenActivity.kt:199 | A new `TabsFragment()` has the tabs class and no arguments. |
| Screen.IsTabs | app/src/main/kotlin/com/looker/droidify/screen/ScreenActivity.kt:314 | `is TabsFragment`: a fragment is shown and its class is the tabs class. |
| Screen.StackItemOf | app/src/main/kotlin/com/looker/droidify/screen/ScreenActivity.kt:248-252 | The stack entry records the fragment's class name and arguments, and the state saved for it. |
| Screen.Recreate | app/src/main/kotlin/com/looker/droidify/screen/ScreenActivity.kt:261-263 | The fragment re-created from an entry gives back that entry when saved with the entry's state. |
| Screen.ProductToOpen | app/src/main/kotlin/com/looker/droidify/screen/ScreenActivity.kt:337-349 | A product page opens iff the intent is VIEW and names a package, and that package's detail page is not already shown. The package opened is the intent's package name and is non-empty. |
| Screen.ScreenActivity.constructor | app/src/main/kotlin/com/looker/droidify/screen/ScreenActivity.kt:97 | The stack starts empty. |
| Screen.ScreenActivity.ReplaceFragment | app/src/main/kotlin/com/looker/droidify/screen/ScreenActivity.kt:227-244 | The new fragment is shown, and the stack is unchanged. |
| Screen.ScreenActivity.PushFragment | app/src/main/kotlin/com/looker/droidify/screen/ScreenActivity.kt:246-256 | When a fragment is shown, exactly one entry for it is appended after the unchanged earlier entries. With no fragment shown, the stack is unchanged. The new fragment is shown either way. |
| Screen.ScreenActivity.PopFragment | app/src/main/kotlin/com/looker/droidify/screen/ScreenActivity.kt:258-267 | On an empty stack it returns false and changes nothing. Otherwise it removes exactly the last entry and keeps the prefix. It shows the fragment re-created from that entry and returns true. |
| Screen.ScreenActivity.OnBackPressed | app/src/main/kotlin/com/looker/droidify/screen/ScreenActivity.kt:217-225 | A press the fragment leaves alone pops the stack. It falls through to the system exactly when the stack was empty. |
| Screen.ScreenActivity.OnToolbarCreated | app/src/main/kotlin/com/looker/droidify/screen/ScreenActivity.kt:274-280 | The up indicator is set iff the stack is non-empty. |
| Screen.ScreenActivity.HandleUpdates | app/src/main/kotlin/com/looker/droidify/screen/ScreenActivity.kt:313-319 | Unless tabs are shown, the stack is emptied and new tabs are shown. Otherwise nothing changes. Tabs are shown afterwards either way. |
| Screen.ScreenActivity.HandleIntent | app/src/main/kotlin/com/looker/droidify/screen/ScreenActivity.kt:337-349 | When `ProductToOpen` names a package, its detail page is pushed. Otherwise nothing changes. |
| Screen.ScreenActivity.OnSaveInstanceState | app/src/main/kotlin/com/looker/droidify/screen/ScreenActivity.kt:212-215 | The saved stack is the current stack. |
| Screen.ScreenActivity.OnCreate | app/src/main/kotlin/com/looker/droidify/screen/ScreenActivity.kt:196-203 | A restored state appends the saved stack. A fresh start shows tabs and then handles the intent unless it was launched from history. |
| Screen.BackAfterPush | app/src/main/kotlin/com/looker/droidify/screen/ScreenActivity.kt:246-267 | Back after a push restores the stack. It shows the earlier fragment again, re-created with its saved state. |
| Screen.RepeatedViewIntentOpensOnce | app/src/main/kotlin/com/looker/droidify/screen/ScreenActivity.kt:337-349 | Handling the same intent twice has the effect of handling it once. The stack gains at most the one entry a single handling adds. The shown fragment is the product page when one opens, and unchanged otherwise. |
| Screen.SaveThenRestore | app/src/main/kotlin/com/looker/droidify/screen/ScreenActivity.kt:196-215 | A new activity created from the saved state has the same stack as the one that saved it. |

## Left out

- Opening the jar (`toJarFile`), the code-signer, certificate and fingerprint extensions, and the index parser are not part of this model. Each member carries its signer's fingerprint, and the parser is a parameter about which nothing is assumed. A failure to open the file is not modelled.
- EntryValidation.GetEntryAndFingerprint: a verifying `JarFile` can raise a `SecurityException` while the entry stream is read, when the entry's digest does not match the jar's signature files. That outcome depends on more than the member's bytes and is not modelled; at most it could be folded into `ParseFailure`. It would still never reach the sink.
- `Fingerprint.check` is a parameter with no assumed meaning. Canonical or case-insensitive comparison therefore cannot be stated.
- EntryValidation.Message: `${repo.fingerprint}` is rendered as the fingerprint's raw text. `Fingerprint.toString` is not part of this model.
- The exception classes are not modelled. Failures are reported by cause: `requireNotNull` raises an `IllegalArgumentException` and the rejection a `ValidationException`.
- Coroutine dispatch (`withContext(Dispatchers.IO)`, `lifecycleScope.launch`) and suspension are left out. The model is sequential.
- Resource closing is left out. The jar is never closed in the code.
- The body of `nullIfEmpty` (in core/common) is not part of this model. IntentPackage.NullIfEmpty assumes it turns an empty string into null and leaves every other string as it is.
- Android `Uri` parsing is left out. A URI is the record of the parts the classifier reads.
- Screen.IsTabs: `is TabsFragment` is modelled as the class name being `TabsFragment`'s, so subclasses are not recognised.
- Screen.ProductToOpen: `fragment !is AppDetailFragment` is modelled the same way, as the class name differing from `AppDetailFragment`'s, so subclasses are not recognised. Screen.ScreenActivity.HandleIntent uses the same test.
- `AppDetailFragment` is not part of this model. Its `packageName` and its construction are parameters of `HandleIntent`.
- `handleSpecialIntent(Install)` calls `installApk`, which is I/O and is left out. So are `selectUpdates` and every other UI effect: themes, snackbar, notification permission, keyboard hiding, animations, `translationZ`, `Class.forName` reflection, and the cursor owner.
- `Bundle` and `Fragment.SavedState` are opaque. Each is one parcel value, and their own layout and the class loader assignment are left out.
- The parcel has the following simplifications:
  - Writes append at the end. Overwriting inside the data is not modelled.
  - A read of a value of another kind gives null or 0 and moves on. A real parcel would reinterpret the raw bytes.
  - A payload creator that finds no payload fails.
- `savedInstanceState` is abstracted to the saved stack, or null. How Android serialises the array list is left out.
- LinkItemBinding.java is generated view-binding code and is left out.
