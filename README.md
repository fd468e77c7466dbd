# SNMP location normalisation (LocationMap modeler plug-in)

This project models the core of the `community.snmp.LocationMap` modeler plug-in of the
ZenPacks.community.SNMPLocation Zenoss pack. The plug-in reads a device's raw SNMP
sysLocation string and hands back two values:

- a Zenoss location path such as `/Albuquerque/DC1/Rack01`;
- a rack-slot descriptor decoded from a `-suffix` on the last segment, such as
  `rh=1,ru=25`.

The model has three modules:

- `Text` (text.dfy) models the Python 2 built-ins the plug-in uses: `str.find`,
  `str.split`, `str.join`, `str.isdigit` and slices that never go out of range. It
  proves that split and join are inverses, and that a string with n delimiters splits
  into n + 1 pieces.
- `RackSlot` (rack_slot.dfy) holds the rack-slot cascade. `DecodeRackSlot` is a pure
  function that tries the rules in the source's order, first match wins. A `Mount`
  datatype describes each mounting position: the suffix an operator writes for it and
  the descriptor it stands for. A round-trip lemma connects the cascade to that table.
- `LocationMap` (location_map.dfy) holds the rest. `Normalize` is the specification
  function for the whole step. `Process` is the imperative method: it rebinds `loclist`
  and replaces its last element as the plug-in does, and it is proved equal to
  `Normalize`. The lemmas cover:
  - the shape of the path;
  - where the rack slot comes from;
  - the plug-in's own `Rack01-25` example;
  - what the code does as written.

`prepId` is the Zenoss sanitiser applied to each segment. Its body is not part of this
model, so every member takes it as a parameter `prepId: string -> string`. Lemmas that
need `prepId` never to return a `/` say so with `NoSlash(prepId)`. The comment at
LocationMap.py:27-30 states that assumption.

The model follows the code where a reader might expect something else:

- **Cut point.** The suffix is cut at the FIRST `-` of the last segment (`find`), not
  the last one.
- **Cut after sanitising.** The cut is made after `prepId` has run on the segment, not
  before.
- **Prepend.** A `/` is put in front of every non-empty location, even one that already
  starts with `/`. The guard at LocationMap.py:49 compares a list slice with a string,
  so it is always true. As a result `/A/B` gives `//A/B` (`LeadingSlashDoubled`).
  The comments at LocationMap.py:32-33 and :48 mean the prepend to be conditional.
  `Normalize` and `Process` deliberately keep the guard as written; `NormalizeGuarded`
  is the step with the guard its comments describe (see "## Findings").
- **Empty inner segments.** `split('/')` keeps empty pieces and every inner segment
  stays in the path, so with a sanitiser that leaves `A`, `B` and "" alone, `A//B` gives
  `/A//B`: the path can hold two `/` in a row, under both `Normalize` and
  `NormalizeGuarded` (`PathLayout`).
- **Idempotence.** Normalising a returned path again does not give it back: it gains
  one more `/` (`RenormalizeAddsSlash`). With the intended guard it does come back
  unchanged (`GuardedStable`), which is how this model reads LocationMap.py:35-39.

## Model

| member | source | states |
|---|---|---|
| `Text.Find` | ZenPacks/community/SNMPLocation/modeler/plugins/community/snmp/LocationMap.py:57 | `find` returns -1 exactly when the character is absent; otherwise it returns the index of its first occurrence. |
| `Text.Join` | ZenPacks/community/SNMPLocation/modeler/plugins/community/snmp/LocationMap.py:97 | `"/".join`. It has no contract of its own: `JoinSplit` and `SplitJoin` characterise it as the inverse of `Split`. |
| `Text.Split` | ZenPacks/community/SNMPLocation/modeler/plugins/community/snmp/LocationMap.py:46 | `split('/')` always yields at least one piece, and no piece contains the delimiter. |
| `Text.JoinSplit` | ZenPacks/community/SNMPLocation/modeler/plugins/community/snmp/LocationMap.py:97 | Joining the pieces of a split with the same delimiter gives back the original string. |
| `Text.SplitJoin` | ZenPacks/community/SNMPLocation/modeler/plugins/community/snmp/LocationMap.py:97 | Splitting the join of delimiter-free pieces gives back exactly those pieces. |
| `Text.SplitCount` | ZenPacks/community/SNMPLocation/modeler/plugins/community/snmp/LocationMap.py:46 | A string with n delimiters splits into n + 1 pieces. |
| `Text.Take` | ZenPacks/community/SNMPLocation/modeler/plugins/community/snmp/LocationMap.py:70 | `extra[:n]` is a prefix of at most n characters: exactly n when the string is long enough, and the whole string when n is past its end. It never fails. |
| `Text.Drop` | ZenPacks/community/SNMPLocation/modeler/plugins/community/snmp/LocationMap.py:73 | `extra[:n] + extra[n:]` is the whole string, for every n. |
| `Text.Slice` | ZenPacks/community/SNMPLocation/modeler/plugins/community/snmp/LocationMap.py:76 | `extra[i:j]` has at most j - i characters. It equals the exact slice when j is in range, the rest of the string from i when only i is, and "" when i is past the end. |
| `Text.IsDigits` | ZenPacks/community/SNMPLocation/modeler/plugins/community/snmp/LocationMap.py:70 | `str.isdigit()`: the string is non-empty and every character is an ASCII digit, so `"".isdigit()` is False. |
| `RackSlot.DecodeRackSlot` | ZenPacks/community/SNMPLocation/modeler/plugins/community/snmp/LocationMap.py:66-92 | The cascade is total. Its result is "", starts with `rh=1,`, or is one of the four `split=` descriptors. |
| `RackSlot.FrontUnit` | ZenPacks/community/SNMPLocation/modeler/plugins/community/snmp/LocationMap.py:70-72 | A suffix whose first character is a digit gives `rh=1,ru=` + the whole suffix. Later characters are not checked. |
| `RackSlot.RearUnit` | ZenPacks/community/SNMPLocation/modeler/plugins/community/snmp/LocationMap.py:73-75 | `r`/`R` followed by a non-empty run of digits gives `rh=1,split=rear,ru=` + the digits. |
| `RackSlot.RearSide` | ZenPacks/community/SNMPLocation/modeler/plugins/community/snmp/LocationMap.py:76-83 | `r`/`R` followed by `l`/`L` gives `split=left/rear`; followed by `r`/`R` it gives `split=right/rear`. Characters after the second are ignored. |
| `RackSlot.SingleSide` | ZenPacks/community/SNMPLocation/modeler/plugins/community/snmp/LocationMap.py:84-90 | A one-character suffix `l`/`L` gives `split=left`; `r`/`R` gives `split=right`. |
| `RackSlot.Unrecognised` | ZenPacks/community/SNMPLocation/modeler/plugins/community/snmp/LocationMap.py:91-92 | Every suffix that none of the four rules matches, "" included, gives "". |
| `RackSlot.DescriptorDeterminesRule` | ZenPacks/community/SNMPLocation/modeler/plugins/community/snmp/LocationMap.py:70-75 | The result starts with `rh=1,ru=` exactly when the suffix starts with a digit. It starts with `rh=1,split=rear,ru=` exactly when the suffix is `r` followed by digits. |
| `RackSlot.NoUnitOutsideUnitRules` | ZenPacks/community/SNMPLocation/modeler/plugins/community/snmp/LocationMap.py:76-92 | Outside the two unit rules the result is "" or a `split=` descriptor with no unit position. |
| `RackSlot.RulesExclusive` | ZenPacks/community/SNMPLocation/modeler/plugins/community/snmp/LocationMap.py:70-90 | The four rules exclude each other: no suffix matches two of them, so the order of the cascade never changes the result. |
| `RackSlot.RearDigitBeatsRightSide` | ZenPacks/community/SNMPLocation/modeler/plugins/community/snmp/LocationMap.py:73-90 | `r9` decodes as rear unit 9, never as `split=right`. |
| `RackSlot.DecodeSuffix` | ZenPacks/community/SNMPLocation/modeler/plugins/community/snmp/LocationMap.py:70-90 | For every well-formed mounting position, decoding the suffix written for it yields its descriptor. |
| `RackSlot.DescriptorInjective` | ZenPacks/community/SNMPLocation/modeler/plugins/community/snmp/LocationMap.py:70-90 | Distinct mounting positions have distinct descriptors. |
| `LocationMap.Sanitize` | ZenPacks/community/SNMPLocation/modeler/plugins/community/snmp/LocationMap.py:46 | `map(prepId, parts)` keeps one sanitised segment per input segment, in the same order. |
| `LocationMap.Cut` | ZenPacks/community/SNMPLocation/modeler/plugins/community/snmp/LocationMap.py:57-64 | The kept stem contains no `-`. If the segment has a `-`, then stem + `-` + suffix is the segment; otherwise the segment stays whole and the suffix is "". |
| `LocationMap.Normalize` | ZenPacks/community/SNMPLocation/modeler/plugins/community/snmp/LocationMap.py:41-104 | The result is ("", "") exactly for an empty location. Any other location gives a path starting with `/`. The rack slot always has one of the descriptor shapes. |
| `LocationMap.Process` | ZenPacks/community/SNMPLocation/modeler/plugins/community/snmp/LocationMap.py:41-97 | The step-by-step method, which rebinds `loclist` and replaces its last element, returns exactly `Normalize`'s pair. |
| `LocationMap.PathSplit` | ZenPacks/community/SNMPLocation/modeler/plugins/community/snmp/LocationMap.py:46-51 | The path is the `/`-join of an empty segment followed by the sanitised segments. Splitting the path gives exactly those segments back. |
| `LocationMap.PathLayout` | ZenPacks/community/SNMPLocation/modeler/plugins/community/snmp/LocationMap.py:46-97 | The path's first segment is empty. Each inner segment is `prepId` of the input segment, unchanged. The last segment is cut at its `-`. The path has (number of `/` in the input) + 2 segments. |
| `LocationMap.LeadingSlashDoubled` | ZenPacks/community/SNMPLocation/modeler/plugins/community/snmp/LocationMap.py:48-51 | An input that already starts with `/` gives a path starting with `//`, since the prepend is unconditional. |
| `LocationMap.RenormalizeAddsSlash` | ZenPacks/community/SNMPLocation/modeler/plugins/community/snmp/LocationMap.py:36-51 | Normalising a returned path again gives `/` + that path and an empty rack slot, even with a sanitiser that leaves its own output alone. |
| `LocationMap.SegmentsStable` | ZenPacks/community/SNMPLocation/modeler/plugins/community/snmp/LocationMap.py:27-30 | A prefix-stable sanitiser leaves "" and every segment of a returned path unchanged. |
| `LocationMap.RackSlotFromSuffix` | ZenPacks/community/SNMPLocation/modeler/plugins/community/snmp/LocationMap.py:57-92 | Suppose the last segment sanitises to `stem-extra` with no `-` in the stem. Then the path ends in `stem` and the rack slot is the decoding of `extra`. Earlier segments are never inspected. |
| `LocationMap.NoSuffixNoRackSlot` | ZenPacks/community/SNMPLocation/modeler/plugins/community/snmp/LocationMap.py:57-64 | A last segment with no `-` after sanitising stays whole, and the rack slot is "". |
| `LocationMap.MountRoundTrip` | ZenPacks/community/SNMPLocation/modeler/plugins/community/snmp/LocationMap.py:53-92 | A mounting position written after the `-` of the last segment comes back as its descriptor. |
| `LocationMap.DocumentedExamples` | ZenPacks/community/SNMPLocation/modeler/plugins/community/snmp/LocationMap.py:53-55 | With a sanitiser that changes nothing, `Albuquerque/DC1/Rack01-25` gives (`/Albuquerque/DC1/Rack01`, `rh=1,ru=25`). The `-r25`, `-rl` and `-l` variants give the rear, left/rear and left descriptors. |
| `LocationMap.RearDigitExample` | ZenPacks/community/SNMPLocation/modeler/plugins/community/snmp/LocationMap.py:73-75 | `X-r9` gives (`/X`, `rh=1,split=rear,ru=9`). |
| `LocationMap.NormalizeGuarded` | ZenPacks/community/SNMPLocation/modeler/plugins/community/snmp/LocationMap.py:32-51 | The step with the intended guard. Its rack slot is always `Normalize`'s, and its whole result equals `Normalize`'s whenever the first sanitised segment is not empty. |
| `LocationMap.GuardedKeepsOneSlash` | ZenPacks/community/SNMPLocation/modeler/plugins/community/snmp/LocationMap.py:48-51 | With the intended guard, an input starting with `/` keeps a single leading `/`: the path is `Normalize`'s path without its first `/`. |
| `LocationMap.GuardedStable` | ZenPacks/community/SNMPLocation/modeler/plugins/community/snmp/LocationMap.py:35-39 | With the intended guard, feeding a returned path back in gives the same path and an empty rack slot, when `prepId` never returns `/` and leaves its own output alone. |
| `LocationMap.ProcessAsWritten` | ZenPacks/community/SNMPLocation/modeler/plugins/community/snmp/LocationMap.py:44-51 | As written, the routine returns only for the empty location, and then returns ("", ""). |
| `LocationMap.AsWrittenRaises` | ZenPacks/community/SNMPLocation/modeler/plugins/community/snmp/LocationMap.py:49-51 | As written, every non-empty location raises TypeError. `Normalize` returns a path starting with `/` for the same input. |
| `LocationMap.CutAsWritten` | ZenPacks/community/SNMPLocation/modeler/plugins/community/snmp/LocationMap.py:57-64 | As written, the kept stem is the same as `Cut`'s. |
| `LocationMap.CutAsWrittenLosesSuffix` | ZenPacks/community/SNMPLocation/modeler/plugins/community/snmp/LocationMap.py:60-62 | As written, the suffix is "" for every segment, so the rack slot is always "". |
| `LocationMap.CutAsWrittenExample` | ZenPacks/community/SNMPLocation/modeler/plugins/community/snmp/LocationMap.py:53-62 | For `Rack01-25`, the as-written suffix is "" while `Cut`'s suffix is `25`. |

## Left out

- SNMP retrieval of sysLocation (OID `.1.3.6.1.2.1.1.6.0`, the sysLocation object of
  SNMPv2-MIB), the `objectMap`, the logging and the returned ObjectMap
  (LocationMap.py:7-16, 104-108). This is framework and network plumbing: the model
  starts from the raw string and ends with the pair.
- The body of Zenoss's `prepId` is not part of this model. It is a parameter, applied
  once per segment. Lemmas that depend on its behaviour state what they need:
  - `NoSlash`: it never returns `/`;
  - `PrefixStable`: it leaves its own output and that output's prefixes alone.
- ZenPacks/community/SNMPLocation/__init__.py is not modelled: the `SNMPLocationCallback`
  monkey-patch on `Device`, the install/remove traversal of the device organizers, and
  the `zCollectorPlugins` list edits. It is glue over the Zenoss object database. As
  written it also refers to names that do not exist (`dc`, `remove_modeler_plugins`,
  `app`, `log`).
- No "update the rack slot only when the location changed" policy is modelled. The
  plug-in always computes both values; whether to store them is up to the caller.
- `RackSlot.DecodeRackSlot`: `isdigit` is modelled as the ASCII digits `0`-`9`, which
  is what Python 2 byte strings accept in the default C locale. Digits of other
  locales are not modelled.
- Characters are modelled as Dafny `char` values, not bytes. No encoding or decoding of
  the SNMP octet string is modelled.

## Findings

| source | as written | input that shows it | evidently intended | confidence | as-written member | corrected member |
|---|---|---|---|---|---|---|
| ZenPacks/community/SNMPLocation/modeler/plugins/community/snmp/LocationMap.py:49-51 | The guard is always true. `"" + loclist` then adds a string to a list, which raises TypeError. | `Albuquerque/DC1/Rack01-25` (any non-empty location) | Put an empty segment in front, `[""] + loclist`, so that the join starts with `/` | high (not executed) | `LocationMap.AsWrittenRaises` | `LocationMap.PathSplit` |
| ZenPacks/community/SNMPLocation/modeler/plugins/community/snmp/LocationMap.py:60-62 | The segment is cut first, and the suffix is then read from the cut segment past its end, so it is always "". | `Rack01-25` (with line 51 corrected) gives rack slot "" | Read the suffix from the uncut segment, so that `Rack01-25` gives `ru=25` as the comment at lines 53-55 says | high (not executed) | `LocationMap.CutAsWrittenLosesSuffix` | `LocationMap.Cut` |
| ZenPacks/community/SNMPLocation/modeler/plugins/community/snmp/LocationMap.py:49 | Once line 51 is repaired, the guard still compares a list slice with a string, so it is always true and a `/` is prepended even to a location that already has one. A returned path fed back in is therefore never stable. | `/A/B` gives `//A/B`, and feeding `//A/B` back in gives `///A/B` (with line 51 corrected) | Prepend only when the first segment is not empty, as the comments at lines 32-33 and 48 say, so that an applied location comes back unchanged (lines 35-39) | medium (not executed) | `LocationMap.LeadingSlashDoubled` | `LocationMap.GuardedStable` |
