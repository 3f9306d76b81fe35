# util4j byte toolkit and script registry, in Dafny

This project models two parts of the util4j Java library and proves properties
about them.

**FileStreamBytes** (module `FileStreamBytes`, with `JavaArrays` beside it) is a
toolkit over Java byte arrays:

- `canReadLength` is a bounds test. It comes in two forms: one takes an index, the other a mutable cursor `P`.
- `readByteArrayByLenght` is a bounds-checked slice copy, with the same two forms. The cursor form advances the cursor past the bytes it read.
- `equalsByteArray` is null-aware equality. Its last test compares the two `Arrays.toString` texts.
- `readByteArrayByEndArray` reads from the cursor up to and including the first occurrence of a terminator array. It slides a window of the terminator's length along the bytes.

A Java `byte` is the newtype `Byte` (-128..127). A `byte[]` is `array?<Byte>`
wherever the source tests for null, and `array<Byte>` wherever it dereferences.
The cursor `P` is the class `Cursor`: an `int` field `value` and `Move(n)`.
The scanner keeps its two `ArrayList`s as `seq<Byte>` locals.

**AbstractScriptProvider** (module `ScriptProvider`) builds the registry from
message code to script class in a hot-swappable script provider:

- `findScriptClass` filters the loaded classes down to scripts.
- `findScriptCodeMap` builds the code map. Abstract types are skipped. The first class registered under a code wins, and a later class with the same code is rejected.
- `loadAllClass` guards on the state and replaces the code map wholesale.
- `getScriptClass` and `buildInstance` look a code up, static registrations first.

Each loaded class is a `ClassInfo` descriptor: its name, whether it is a script,
whether it is abstract or an interface, whether `newInstance` succeeds on it,
and the message code its instance reports. The iteration order of a `HashSet` is
modelled as the order of an input sequence. The provider is the class `Provider`,
with fields `state` and `codeMap`.

## Model

| member | source | states |
|---|---|---|
| `FileStreamBytes.Wrap32` | util4j/src/net/jueb/tools/io/FileStreamBytes.java:166 | Java's `int` sum: the result is a 32-bit int congruent to the true sum modulo 2^32, and equal to it when the true sum fits |
| `FileStreamBytes.Cursor.Move` | util4j/src/net/jueb/tools/io/FileStreamBytes.java:212 | `move(n)` advances the position by exactly n |
| `FileStreamBytes.CanReadLength` | util4j/src/net/jueb/tools/io/FileStreamBytes.java:160-174 | false for a null array; otherwise true iff 0 <= p and the `length` bytes from p (length >= 0) end inside the array |
| `FileStreamBytes.CanReadLengthAt` | util4j/src/net/jueb/tools/io/FileStreamBytes.java:223-246 | the same test at the cursor's position; as a function it cannot move the cursor |
| `FileStreamBytes.CanReadLengthAsWritten` | util4j/src/net/jueb/tools/io/FileStreamBytes.java:160-174 | the guard with 32-bit `p + length`: when it accepts, the array is non-null and p and length are non-negative |
| `FileStreamBytes.CanReadLengthAsWrittenDiffers` | util4j/src/net/jueb/tools/io/FileStreamBytes.java:166 | the 32-bit guard accepts exactly what the intended guard accepts, plus every non-negative p and length whose sum exceeds Integer.MAX_VALUE |
| `FileStreamBytes.CanReadLengthOverflowWitness` | util4j/src/net/jueb/tools/io/FileStreamBytes.java:166 | at p = Integer.MAX_VALUE and length 1 the 32-bit guard accepts any array, although no byte lies there |
| `FileStreamBytes.EqualsByteArray` | util4j/src/net/jueb/tools/io/FileStreamBytes.java:175-195 | true iff both arguments are null, or both are non-null with equal contents (so one null gives false, and different lengths give false) |
| `FileStreamBytes.EqualsByteArrayAsWritten` | util4j/src/net/jueb/tools/io/FileStreamBytes.java:189-194 | the method's own condition (same reference, or both non-null, the same length and equal `Arrays.toString` texts) decides the same as EqualsByteArray |
| `FileStreamBytes.EqualsByteArrayIsEquivalence` | util4j/src/net/jueb/tools/io/FileStreamBytes.java:175-195 | equalsByteArray is reflexive, symmetric and transitive |
| `FileStreamBytes.ReadByteArrayByLength` | util4j/src/net/jueb/tools/io/FileStreamBytes.java:135-151 | returns non-null exactly when CanReadLength holds, and then a fresh array equal to bytes[p..p+length) |
| `FileStreamBytes.ReadByteArrayByLengthAt` | util4j/src/net/jueb/tools/io/FileStreamBytes.java:197-221 | non-null exactly when CanReadLength holds at the cursor; then a fresh copy of bytes[p0..p0+length) with the cursor at p0+length (unmoved for length 0); on null the cursor is untouched |
| `FileStreamBytes.ReadExample` | util4j/src/net/jueb/tools/io/FileStreamBytes.java:311-320 | reading {1,2,3,4} at 1 for 2 bytes gives {2,3}, and equalsByteArray({2,3}, it) is true |
| `FileStreamBytes.ScanRefusedExactly` | util4j/src/net/jueb/tools/io/FileStreamBytes.java:257-268 | the scanner's two early refusals together mean exactly: the terminator is empty, or fewer than its length bytes remain after the cursor (a negative cursor included) |
| `FileStreamBytes.FirstMatchUnique` | util4j/src/net/jueb/tools/io/FileStreamBytes.java:247-254 | two first occurrences of the terminator from the same start are at the same place, so the scanner's contract fixes its result |
| `FileStreamBytes.FoundDataEndsAtFirstMatch` | util4j/src/net/jueb/tools/io/FileStreamBytes.java:247-254 | the bytes returned end with the terminator and contain no earlier occurrence of it |
| `FileStreamBytes.ByteRead` | util4j/src/net/jueb/tools/io/FileStreamBytes.java:284-290 | reading one byte extends the bytes read by that byte and slides the window of the last \|endArray\| bytes on by one place |
| `FileStreamBytes.WindowDiffers` | util4j/src/net/jueb/tools/io/FileStreamBytes.java:297-302 | a window that differs from the terminator extends the stretch without an occurrence by one place |
| `FileStreamBytes.WindowMatches` | util4j/src/net/jueb/tools/io/FileStreamBytes.java:297-301 | a matching window, with no occurrence before it, is the first occurrence from the start |
| `FileStreamBytes.NoMatchToEnd` | util4j/src/net/jueb/tools/io/FileStreamBytes.java:282-308 | when the loop runs out of bytes, no occurrence starts anywhere from the start position on |
| `FileStreamBytes.ToArray` | util4j/src/net/jueb/tools/io/FileStreamBytes.java:293-302 | the element-by-element copy loops produce a fresh array holding exactly the list's contents |
| `FileStreamBytes.ReadByteArrayByEndArray` | util4j/src/net/jueb/tools/io/FileStreamBytes.java:255-309 | refused: null with the cursor kept; not found: null, with the cursor at the end and no occurrence from p0 on; found: a fresh copy of bytes[p0..cursor), where the cursor stops right after the first occurrence from p0; a terminator right at p0 gives the terminator itself |
| `FileStreamBytes.SlideToEnd` | util4j/src/net/jueb/tools/io/FileStreamBytes.java:282-308 | the sliding loop keeps `value` equal to the bytes read since p0 and `end` equal to the last \|endArray\| of them; it returns the first occurrence or null at the end |
| `FileStreamBytes.SlideOnce` | util4j/src/net/jueb/tools/io/FileStreamBytes.java:284-298 | one turn advances the cursor by one, keeps both lists in step with the bytes read, and reports whether the new window equals the terminator |
| `JavaArrays.DigitsInjective` | util4j/src/net/jueb/tools/io/FileStreamBytes.java:189 | different non-negative numbers have different decimal texts |
| `JavaArrays.ByteTextInjective` | util4j/src/net/jueb/tools/io/FileStreamBytes.java:189 | different bytes have different `Integer.toString` texts |
| `JavaArrays.JoinedInjective` | util4j/src/net/jueb/tools/io/FileStreamBytes.java:189 | the comma-separated list of element texts determines the elements |
| `JavaArrays.ArrayTextInjective` | util4j/src/net/jueb/tools/io/FileStreamBytes.java:189 | two byte arrays have the same `Arrays.toString` text iff their contents are equal |
| `ScriptProvider.ScriptsOfAppend` | util4j/src/main/java/net/jueb/util4j/hotSwap/classFactory/AbstractScriptProvider.java:203-208 | filtering for scripts distributes over concatenation, so the one-pass loop builds the filter of its prefix |
| `ScriptProvider.ScriptsOfMembers` | util4j/src/main/java/net/jueb/util4j/hotSwap/classFactory/AbstractScriptProvider.java:203-207 | a class is among the scripts found iff it is a candidate assignable to IScript |
| `ScriptProvider.ScriptsOfDistinct` | util4j/src/main/java/net/jueb/util4j/hotSwap/classFactory/AbstractScriptProvider.java:200-210 | distinct candidates (a set) give distinct scripts (a set) |
| `ScriptProvider.FindScriptClass` | util4j/src/main/java/net/jueb/util4j/hotSwap/classFactory/AbstractScriptProvider.java:200-210 | returns the script classes among the candidates, in iteration order |
| `ScriptProvider.Lookup` | util4j/src/main/java/net/jueb/util4j/hotSwap/classFactory/AbstractScriptProvider.java:324 | `Map.get`: an entry iff the code is a key, and then the mapped class |
| `ScriptProvider.FirstWithCodeAppend` | util4j/src/main/java/net/jueb/util4j/hotSwap/classFactory/AbstractScriptProvider.java:229-235 | appending a class changes the first concrete class with a code only when none came before |
| `ScriptProvider.CodeMapOfIsFirst` | util4j/src/main/java/net/jueb/util4j/hotSwap/classFactory/AbstractScriptProvider.java:228-235 | the class registered under a code is the first concrete script with that code, and a code is a key iff such a class exists |
| `ScriptProvider.FirstWithCodeFinds` | util4j/src/main/java/net/jueb/util4j/hotSwap/classFactory/AbstractScriptProvider.java:223-236 | the first class found is a concrete member with that code, and one is found whenever the input has one |
| `ScriptProvider.CodeMapSound` | util4j/src/main/java/net/jueb/util4j/hotSwap/classFactory/AbstractScriptProvider.java:224-235 | every entry maps a code to a concrete script of the input whose message code is that code; no abstract class or interface is registered |
| `ScriptProvider.CodeMapComplete` | util4j/src/main/java/net/jueb/util4j/hotSwap/classFactory/AbstractScriptProvider.java:223-236 | every concrete script's message code is a key |
| `ScriptProvider.CodeMapKeepsEntries` | util4j/src/main/java/net/jueb/util4j/hotSwap/classFactory/AbstractScriptProvider.java:229-235 | a code already registered keeps its class: later duplicates are rejected, not substituted |
| `ScriptProvider.FindScriptCodeMap` | util4j/src/main/java/net/jueb/util4j/hotSwap/classFactory/AbstractScriptProvider.java:220-239 | fails (the newInstance exception) iff some concrete script cannot be instantiated; otherwise returns the first-wins map of the concrete scripts |
| `ScriptProvider.Provider.constructor` | util4j/src/main/java/net/jueb/util4j/hotSwap/classFactory/AbstractScriptProvider.java:62-96 | after init the state is `loaded`, and the code map is the one built from the loaded classes, or empty when loading failed |
| `ScriptProvider.Provider.LoadAllClass` | util4j/src/main/java/net/jueb/util4j/hotSwap/classFactory/AbstractScriptProvider.java:106-189 | during a load, nothing changes; otherwise the state ends `loaded` even on failure, and on success the code map equals exactly the newly built map (no stale codes), else it is unchanged |
| `ScriptProvider.Provider.GetScriptClass` | util4j/src/main/java/net/jueb/util4j/hotSwap/classFactory/AbstractScriptProvider.java:320-328 | the dynamic entry for the code if it is a key, else null |
| `ScriptProvider.Provider.BuildInstance` | util4j/src/main/java/net/jueb/util4j/hotSwap/classFactory/AbstractScriptProvider.java:334-349 | a static registration wins; otherwise the dynamic entry; null iff neither has the code |
| `ScriptProvider.BuildAfterLoad` | util4j/src/main/java/net/jueb/util4j/hotSwap/classFactory/AbstractScriptProvider.java:180-182 | after a successful load, a code without a static registration builds the first concrete script class of the loaded classes that reports it |

## Left out

- The file and stream methods of FileStreamBytes (`saveFileAndReturnStream`, `saveFileByInputStream`, `byteArrayToFile`, `byteArrayToInputStream`, `inputStreamToByteData`, `getByteData`) are pure I/O.
- A null `bytes`, `p` or `endArray` passed to `readByteArrayByEndArray` throws a NullPointerException, because the guard uses the non-short-circuit `|`. The model does not return null there: it takes non-null arguments by their types. The same goes for a null `bytes` or cursor in the `readByteArrayByLenght` overloads.
- The main model adds `p + length` over the integers. Java's 32-bit wrap-around of that sum is modelled separately and reported under Findings.
- `FileStreamBytes.EqualsByteArray` computes its last test as a content comparison. The `Arrays.toString` comparison the method writes is modelled by `JavaArrays.ArrayText`. `FileStreamBytes.EqualsByteArrayAsWritten` proves the two decide the same.
- `FileStreamBytes.SlideToEnd` and `FileStreamBytes.SlideOnce` are the `while` loop of readByteArrayByEndArray and one turn of it. They are split out of the one Java method so that each part can be proved separately.
- The `System.out.println` of the scanner's guard, and all logging in AbstractScriptProvider, is output only.
- Class loading and reflection are replaced by `ClassInfo` descriptors. This covers ScriptClassLoader, the scanning of dirs, URLs and JARs, `File.exists`, `Modifier`, `newInstance` and `getMessageCode`. `LoadAllClass` takes the outcome of loading as a parameter: None when loading threw, otherwise the loaded classes.
- `ScriptProvider.Provider.BuildInstance` returns the class that would be instantiated, not an instance. `newInstance(c)` and its failure are not modelled.
- `buildInstance(code, args)` does the same lookup as `buildInstance(code)`; the arguments only reach `newInstance`. It has no separate member.
- `getStaticScriptClass` belongs to a superclass that is not part of this model. Its answers are the constant map `staticScripts`.
- The ReentrantReadWriteLock, the volatile fields, the change/delete event listener, `reload`, `disableReload`, `autoReload`, `onLoaded`, `getState` and the `classLoader` field are concurrency, events or resource handling.
- HashSet iteration order is an input sequence. `findScriptClass` returns its scripts in the order of that sequence, and the next stage iterates them in that order.
- LiteBlockingWaitConditionStrategy, KeyQueueGroupManager, QueueGroupExecutorProto and TestQueueGroup3 are not part of this model: they are concurrency, bare interfaces and a thread-pool harness.

## Findings

| source | as written | input that shows it | evidently intended | confidence | as-written member | corrected member |
|---|---|---|---|---|---|---|
| util4j/src/net/jueb/tools/io/FileStreamBytes.java:166 | `p+length<=bytes.length` is evaluated in 32-bit `int`, so a large sum wraps to a negative number and passes the test (the same guard appears at lines 137, 207 and 238) | p = 2147483647, length = 1, any array: canReadLength returns true, and the readByteArrayByLenght overloads then index past the array and throw ArrayIndexOutOfBoundsException instead of returning null | the test over the true sum: the range [p, p+length) lies inside the array | not executed | `FileStreamBytes.CanReadLengthAsWritten` (witness `FileStreamBytes.CanReadLengthOverflowWitness`) | `FileStreamBytes.CanReadLength` |
