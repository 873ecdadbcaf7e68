# app-validator: built-in calls and archive bookkeeping, in Dafny

This project models two sequential components of app-validator, a static
validator for browser-extension packages.

1. **The built-in call layer of the JavaScript abstract interpreter**
   (`appvalidator/testcases/javascript/call_definitions.py`), in module
   `CallDefinitions` over the value model in module `JsValues`:
   - `python_wrap`, the calling-convention adapter. It binds script arguments
     to a host function in one of two modes: fixed arity, with a default per
     declared slot, or variadic, with one type for all arguments. It coerces
     each literal by type, turns a raising host function into an unknown value
     and wraps the output.
   - The global built-ins `String`, `Array`, `Number`, `Boolean`, `Math.log`
     and `Math.round`. Each is a stateless function from an argument list to a
     wrapped value.
2. **`ZipPackage`** (`appvalidator/zip.py`), in module `Zip`. It is a class
   whose fields are the memoised file bytes (`fileCache`), the blacklist of
   entries whose decompression failed (`brokenFiles`) and the cached metadata
   (`contentsCache`). The underlying archive is an ordered list of entries
   (name and size) plus a read oracle that yields bytes, raises a
   decompression error, or raises some other error.

Values are modelled as follows:
- A wrapped value is `Known(Primitive)`, `Object`, `Array(nodes)` or
  `Unknown`. A fifth variant, `ArgNode(node)`, is an argument node handed back
  unchanged; `Math.round` does this for infinities.
- Numbers form an abstract domain: `Finite(real)`, `PosInf`, `NegInf` or
  `NaN`. Branch selection is therefore exact without IEEE arithmetic.
- An argument node carries an identity and the optional literal its
  `get_literal_value()` answers.
- Several host primitives are fields of a `Host` value that every built-in
  takes as a parameter: `utils.get_as_str`, `utils.get_as_num`, Python's
  `float()` on a string, `math.log` on a positive finite double, and the
  floating-point nudge `x + 1e-16`. The model knows nothing about them beyond
  their types.
- Python 2's `round` is modelled exactly on reals: round to nearest, halves
  away from zero.

Three behaviours of the code are easy to misread:
- `String(x)` returns a generic object whenever the first literal is *falsy*:
  missing, `""`, `0` or `false`. It does not do so only when the literal is
  absent.
- In `python_wrap`, a present argument whose literal is `None` is still passed
  through `_process_literal`. For the types `"string"` and `"num"` it is
  therefore coerced by `get_as_str` or `get_as_num`. It does not become a
  separate "no value" sentinel.
- The archive's name list is ordered and may repeat names. It is not a set.
  In the metadata, a later entry with the same name replaces the earlier one.

## Model

| member | source | states |
|---|---|---|
| `CallDefinitions.ProcessLiteral` | appvalidator/testcases/javascript/call_definitions.py:58-63 | `"string"` gives `get_as_str` of the literal, `"num"` gives `get_as_num`, and any other type name leaves the literal unchanged |
| `CallDefinitions.FixedBindingAt` | appvalidator/testcases/javascript/call_definitions.py:69-78 | fixed-arity binding yields exactly one parameter per declared slot; parameter i is the processed literal of argument i when that argument exists (even with a `None` literal), else the slot's default; extra arguments are ignored |
| `CallDefinitions.VariadicBindingAt` | appvalidator/testcases/javascript/call_definitions.py:81-83 | variadic binding yields one parameter per supplied argument, in order, each processed with the single type |
| `CallDefinitions.BindArguments` | appvalidator/testcases/javascript/call_definitions.py:66-83 | the loop that pops arguments off the front (fixed) or walks them (variadic) builds exactly the binding characterised by the two lemmas above |
| `CallDefinitions.Contain` | appvalidator/testcases/javascript/call_definitions.py:87-93 | a raising host call becomes `Unknown`; a returned value is wrapped |
| `CallDefinitions.Wrap` | appvalidator/testcases/javascript/call_definitions.py:65-93 | a failure of the host call never escapes: a raise or a `None` output gives `Unknown`, and any other output `p` gives `Known(p)`, where the host function receives the bound parameters |
| `JsValues.FromPython` | appvalidator/testcases/javascript/call_definitions.py:93 | wrapping a Python output gives `Unknown` exactly for `None` and a known literal otherwise |
| `CallDefinitions.StringGlobal` | appvalidator/testcases/javascript/call_definitions.py:17-22 | the result is a generic object exactly when there are no arguments or the first literal is falsy, otherwise the known string `get_as_str(literal)` |
| `CallDefinitions.ArrayGlobal` | appvalidator/testcases/javascript/call_definitions.py:25-26 | an array holding every argument node, unevaluated, in order |
| `CallDefinitions.NumberGlobal` | appvalidator/testcases/javascript/call_definitions.py:29-35 | no arguments gives 0; a failing `float()` of the first literal (no literal, a non-numeric string) gives NaN; otherwise the converted number |
| `CallDefinitions.BooleanGlobal` | appvalidator/testcases/javascript/call_definitions.py:38-42 | always a known boolean, true exactly when there is a first argument whose literal is truthy in Python |
| `CallDefinitions.Log` | appvalidator/testcases/javascript/call_definitions.py:110 | `math.log` keeps +inf and NaN and maps a positive finite value to a finite one |
| `CallDefinitions.MathLog` | appvalidator/testcases/javascript/call_definitions.py:98-111 | no arguments gives 0; 0 gives -inf; the result is `Unknown` exactly for a negative number; +inf and NaN pass through; every other result is a known number |
| `CallDefinitions.Trunc` | appvalidator/testcases/javascript/call_definitions.py:125 | `int(x)` truncates toward zero: the integer at or below a non-negative x, at or above a negative one |
| `CallDefinitions.RoundHalfAway` | appvalidator/testcases/javascript/call_definitions.py:127 | Python's `round` lands within 1/2 of its input and keeps its sign |
| `CallDefinitions.RoundHalfAwayTies` | appvalidator/testcases/javascript/call_definitions.py:124-127 | Python's `round` takes a tie away from zero: j + 1/2 goes to j + 1 when non-negative and to j when negative |
| `CallDefinitions.MathRound` | appvalidator/testcases/javascript/call_definitions.py:114-128 | no arguments gives 0; the result is the argument node itself exactly when the number is infinite; NaN gives NaN; a finite number gives a known integral number |
| `CallDefinitions.StringObjectIffBooleanFalse` | appvalidator/testcases/javascript/call_definitions.py:17-42 | `String` returns a generic object exactly when `Boolean` of the same arguments is false |
| `CallDefinitions.NumberAbsentVersusUnknown` | appvalidator/testcases/javascript/call_definitions.py:29-35 | `Number()` is 0, but `Number` of an argument with no literal is NaN |
| `CallDefinitions.MathRoundKeepsIntegers` | appvalidator/testcases/javascript/call_definitions.py:119-128 | an integral finite number is returned unchanged |
| `CallDefinitions.MathRoundIdempotent` | appvalidator/testcases/javascript/call_definitions.py:114-128 | feeding a known result of `Math.round` back in gives the same result |
| `CallDefinitions.MathRoundNonNegativeIsFloorHalfUp` | appvalidator/testcases/javascript/call_definitions.py:124-127 | on non-negative input the result is floor(x + 1/2), JavaScript's rule |
| `CallDefinitions.MathRoundNegativeHalfAsWritten` | appvalidator/testcases/javascript/call_definitions.py:124-127 | when the double addition of 10^-16 leaves -1.5 unchanged, as it does, the code rounds -1.5 to -2 while JavaScript's rule gives -1 |
| `CallDefinitions.JsRound` | appvalidator/testcases/javascript/call_definitions.py:124 | JavaScript's rounding gives the one integer k with x - 1/2 < k <= x + 1/2, so halves go toward +infinity |
| `CallDefinitions.MathRoundJs` | appvalidator/testcases/javascript/call_definitions.py:114-128 | the intended `Math.round`: the same no-argument, infinite and NaN cases, and a finite x gives the integer k with x - 1/2 < k <= x + 1/2 |
| `CallDefinitions.MathRoundJsHalvesUp` | appvalidator/testcases/javascript/call_definitions.py:124-127 | the intended `Math.round` takes every half k - 1/2 up to k |
| `CallDefinitions.MathRoundJsAgreesOutsideNegativeFractions` | appvalidator/testcases/javascript/call_definitions.py:114-128 | the intended and the written `Math.round` agree on every input except negative non-integers |
| `CallDefinitions.MathLogCases` | appvalidator/testcases/javascript/call_definitions.py:98-111 | log(0) is -inf, log(-1) is unknown, log(1) is 0 |
| `CallDefinitions.NoArgumentResults` | appvalidator/testcases/javascript/call_definitions.py:17-117 | with no arguments: `String` gives an object, `Array` an empty array, `Number`, `Math.log` and `Math.round` give 0, and `Boolean` gives false |
| `CallDefinitions.DefaultOnlyForMissing` | appvalidator/testcases/javascript/call_definitions.py:69-78 | slots `[("num", 0), ("string", "")]` with one argument bind `get_as_num` of its literal and the default `""` |
| `Zip.LastSegment` | appvalidator/zip.py:62 | `split(".")[-1]` is a dot-free suffix of the string that is either the whole string or follows a `.` |
| `Zip.LowerLastSegment` | appvalidator/zip.py:60-62 | taking the last `.` segment of the lower-cased name equals lower-casing the name's last segment |
| `Zip.NameList` | appvalidator/zip.py:31 | `namelist()` lists the entries' names in archive order |
| `Zip.VisibleMembers` | appvalidator/zip.py:30-32 | iteration yields a name exactly when the archive lists it and it is not broken |
| `Zip.VisibleAfterBreak` | appvalidator/zip.py:30-32 | blacklisting a further name removes exactly that name from the iteration and keeps the order of the rest |
| `Zip.DocOfExtension` | appvalidator/zip.py:58-62 | an entry's `extension` is the part of `name_lower` after its last `.`, which equals the lower-cased extension of the name |
| `Zip.ContentsKeys` | appvalidator/zip.py:54-64 | the metadata has a key exactly for every listed name that is not broken |
| `Zip.ContentsEntry` | appvalidator/zip.py:54-64 | each metadata entry describes the last archive entry of that name |
| `Zip.ZipPackage.constructor` | appvalidator/zip.py:18-28 | `filename` is `name or package`, `extension` is its last `.` segment, and the caches and blacklist start empty |
| `Zip.ZipPackage.Iter` | appvalidator/zip.py:30-32 | iteration yields the archive's names in order without the broken ones |
| `Zip.ZipPackage.Contains` | appvalidator/zip.py:34-37 | membership is false for a broken name and otherwise is presence in the name list |
| `Zip.ContainsAgreesWithIter` | appvalidator/zip.py:30-37 | membership holds exactly for the names that iteration yields |
| `Zip.ZipPackage.PackageContents` | appvalidator/zip.py:43-67 | the result is always the current metadata of the unbroken entries; a non-empty cache is returned and kept when nothing is broken, otherwise the metadata is recomputed and stored; the blacklist and the file cache are untouched |
| `Zip.ZipPackage.Info` | appvalidator/zip.py:39-41 | the metadata of one name, absent (the `KeyError`) for a missing or broken name; the contents cache is kept or refreshed exactly as `package_contents` does |
| `Zip.ZipPackage.Read` | appvalidator/zip.py:69-82 | a cached name returns its cached bytes without reading the archive; a successful read is memoised and returned; a decompression failure blacklists the name, is reported, and leaves the file cache unchanged; any other failure changes nothing; returned bytes are always what the archive holds |
| `Zip.ReadThenList` | appvalidator/zip.py:69-82 | after a read that finds an entry corrupt, iteration and membership omit that entry while every other name keeps its place |

## Left out

- Floating-point numerics. The model does not parse strings with `float()` and does not compute `math.log` or the double addition `x + 1e-16`. These are `Host` parameters, and results that depend on them stay abstract.
- `utils.get_as_str`, `utils.get_as_num` and `utils.get_NaN`, plus the `JSWrapper`/`JSObject`/`JSArray` classes. Their code is not part of this model: the first two are `Host` parameters, and the rest are the `Value` variants.
- The traverser and the wrapper a built-in is called on. The built-ins ignore both.
- CallDefinitions.Wrap: the `traverser._debug` trace is not modelled. Its message is formatted with `str()` of every parameter before the `try`, so it can raise, for example on a non-ASCII unicode parameter in Python 2, and that error escapes `wrap`. The literal coercions also run before the `try`. Only failures of the host call itself are contained.
- CallDefinitions.Wrap: in variadic mode the type used is `args[0]` as the source reads it. A caller that passes a list of `(type, default)` pairs puts a pair there; a pair matches neither `"string"` nor `"num"`, so it behaves like any other type name and leaves literals unchanged. The `IndexError` raised by an empty variadic type list is not modelled.
- CallDefinitions.Wrap: host functions return `None` or a primitive. Other Python objects are not modelled.
- The real `ZipFile` and zlib. An ordered entry list and a read oracle replace them.
- `write`, `write_file` and `to_utf8` (output archives and Unicode encoding).
- Lower-casing covers ASCII only.
- Zip.ZipPackage.Iter: the source returns a lazy generator, so a read that breaks a file mid-iteration affects the names not yet yielded. The model computes the whole list at the call.
- Zip.ZipPackage.Info: the `KeyError` for a missing name is the result `None`.

## Findings

| source | as written | input that shows it | evidently intended | confidence | as-written member | corrected member |
|---|---|---|---|---|---|---|
| appvalidator/testcases/javascript/call_definitions.py:124-127 | a negative non-integer is nudged by the double addition `arg += 0.0000000000000001` and then rounded by Python's `round`, which takes ties away from zero; for \|arg\| >= 1 the addition is below half an ulp and leaves `arg` unchanged | `Math.round(-1.5)` gives -2 | JavaScript's rule, floor(x + 1/2): `Math.round(-1.5)` is -1 | not executed; high (the ulp of 1.5 is 2^-52, so 10^-16 rounds away) | `CallDefinitions.MathRoundNegativeHalfAsWritten` | `CallDefinitions.MathRoundJs` |
