# UEFI configuration tooling in Dafny

A model of the configuration knob system of `SetupDataPkg`: the typed codec behind the
Python tools, the code generator that compiles a schema to C, the firmware library that
parses the serialized configuration, and the console application that applies it.
`dafny verify dfyconfig.toml` checks the whole project.

## Layout

| file | contents |
|---|---|
| `Bytes.dfy`, `PyText.dfy` | little-endian packing, Python slices, `strip`, `str(int)`, `int(text, 0)` |
| `Formats.dfy`, `SchemaBuild.dfy` | format and value trees, the recursive bounds check, what a loaded schema satisfies |
| `Binary.dfy`, `Text.dfy`, `TextForms.dfy` | the binary and the text form of a value, and texts the tools do not print themselves |
| `Paths.dfy`, `PathText.dfy` | subknobs: addressing, lens laws on value trees, path texts |
| `Sharing.dfy`, `ObjectTypes.dfy` | values as object graphs: shared containers, in-place writes, deep copies, one format per container |
| `Validators.dfy`, `Macros.dfy`, `KnobValidators.dfy`, `MacroCollision.dfy`, `MacroNames.dfy` | generated enum and knob validators and the bound macros they read, against the bounds check; which macro names collide |
| `VarList.dfy`, `Delta.dfy`, `Getters.dfy` | variable lists, deltas in binary and CSV, generated getter offsets |
| `KnobStore.dfy` | lookup, assignment, CSV rows and variables on value trees |
| `ObjectStore.dfy`, `ObjectDelta.dfy`, `Schema.dfy` | the same on the objects the tools keep: reachable states, lens laws, profiles, deltas, the schema class |
| `ObjectParser.dfy` | `string_to_object` on objects, with the sharing the code makes |
| `VarRecords.dfy`, `ConfigVarList.dfy` | the firmware parser, query and encoder, with a ghost set of live allocations |
| `BootMenu.dfy`, `SerialInput.dfy`, `ConfApp.dfy`, `ConfRuns.dfy` | the console application, and what it does for its user over runs |
| `XmlMerge.dfy`, `BitField.dfy`, `Smbios.dfy` | schema merge, bit fields in byte arrays, SMBIOS table walk |

## Conventions

- A Python exception is `None`, or `ok == false` where the state reached before it matters.
- A checksum is a function parameter of type `Checksum`; every result holds for every such
  function, hence for CRC-32. A namespace is 16 opaque bytes. A name in a variable list is a
  sequence of UTF-16 code units.
- A struct value is the sequence of its members in member order. This is the ordered
  dictionary of the code whenever member names differ, which `FormatOk` asks for.
- The generated C is modelled as data (`EnumCheck`, `Definition`, `Validator`) with an evaluation
  function, in its standard C form; comparisons follow the integer promotions and the usual
  arithmetic conversions, for a `long` of 32 and of 64 bits. An enum value is cast to `int`, or to
  `INTN` in the UEFI form, so the width of the cast is a parameter too (`KnobValidators.Target`).
- A macro that the header defines twice has its last definition. Where the two texts differ C
  asks for a diagnostic (section 6.10.3 of ISO/IEC 9899:2011); a compiler that stops there
  builds no validator at all.
- The answers of firmware services, user input and file contents are parameters.
- The state of a schema is object graphs (`ObjectStore.Reached`, `Schema.KnobSchema`). The maker
  of objects is a parameter, and `MakerOk` asks only that one container has one format and one
  content. The parser of the code meets it (`ObjectParser.ParserMakerOk`), whatever default texts
  the schema has, and so does a maker that shares nothing (`ObjectStore.FreshMakerOk`).
  `KnobStore.Store` is the update of value trees; `ObjectStore.WriteCopyIsSetIff` says exactly
  when the two are the same.
- A knob's own subknob list holds a struct's root twice, because `Knob.__init__` and
  `create_subknobs` both add it (`Paths.OwnSubKnobs`); lookup and generator walk that list.

## Where the code departs from its documentation or from the expected law

- `split_braces` builds a `ParseError` for a missing closing brace and does not raise it
  (`VariableList.py:89-90`); the last element is silently dropped (`Text.UnclosedBraceDropsElement`).
  Exactly when it does raise is `Text.SplitFailsIff`: for a list that never closes, if and only if
  there is a character other than a brace or a comma outside all braces.
- A printed text is not always read back as its value. `Text.TextRoundTripIff` says exactly when:
  a numeric pretty name must denote its own number, any other must be the first of its text, and
  inside a brace list there must be no comma outside braces.
- The range form of an enum validator casts to `int` (`KnobService.py:728-741`), so it refuses
  the highest value of an enum above `INT_MAX` (`Validators.UnsafeEnumExample`). The `INTN` of the
  UEFI form does the same on 32-bit targets and loses nothing on 64-bit ones.
- Two leaves of a schema may define one bound macro, and both validators then read the last
  definition (`MacroCollision.CollidingMacros`). The validators are exact if and only if the
  enums survive their casts and the macros in force decide every leaf rightly at the ends of its
  range (`KnobValidators.ValidatorExactIff`); with one literal suffix per macro, if and only if no
  macro is defined with two numbers (`KnobValidators.SchemaExactIff`). With names whose underscores
  stand alone inside the name this cannot happen (`MacroNames.TameSchemaExactIff`). One suffix matters: read as
  an unsigned long, a signed leaf's own lower bound of 5 lets -1 pass (`KnobValidators.SuffixMatters`,
  an instance of `KnobValidators.SuffixExact`).
- Objects shared inside a value make one subknob assignment show at several places
  (`Sharing.RepeatedWriteSpreads`). Besides arrays this concerns structs: a member that is
  itself a struct keeps one default object, which every value built from an empty text uses
  (`ObjectParser.ParserSharesIff` says exactly what is shared). The
  assignment is the update of one leaf if and only if the written container is not shared
  (`ObjectStore.WriteCopyIsSetIff`).
- `read_vlist_from_buffer` does not reject negative sizes; a small negative name size gives an empty
  name and a GUID cut out of the size fields (`VarList.NegativeNameReads`).
- `write_csv` encodes what it writes, so the export raises for an enum number outside 32 bits, a
  negative one for instance (`Delta.CsvExportsIff`). A bool knob without a value is saved as false,
  in CSV and in binary.
- The order in which configuration files are merged matters where an enum value or a knob type is
  present but empty in one file and has a value in another (`XmlMerge.MergeOrderIff`).
- The retrieve loop reads the name of an entry that was never written when the first record is
  bad (`ConfigVariableListLib.c:412`), so the error status is then one of two.
- The query reports `EFI_NOT_FOUND` for a bad record that follows a record with another name.
- In the wait states of the setup and system information pages, at the end of a dump and in the
  exit prompt, `EFI_NOT_READY` is left in the status and resets the system
  (`ConfApp.NotReadyGoesOnIff`).
- The firmware encoder agrees with the Python one for names of up to 128 units without a NUL, one
  more than the limit `CONF_VAR_NAME_LEN` suggests (`VarRecords.EncodersAgreeIff`).

## Model

| member | source | states |
|---|---|---|
| `Bytes.PackRoundTrip` | SetupDataPkg/Tools/VariableList.py:164-171 | unpacking what was packed gives the integer back, for all eight integer types and every value in range |
| `Bytes.UnpackInRange` | SetupDataPkg/Tools/VariableList.py:167-168 | every byte string of the right width unpacks to a value in the type's range and packs back to itself |
| `PyText.PrintIntRoundTrip` | SetupDataPkg/Tools/VariableList.py:149-162 | the printed form of every integer, read in base 0 or base 10, is that integer |
| `PyText.RadixRoundTrip` | SetupDataPkg/Tools/VariableList.py:149-149 | every integer in base 16, 8 or 2, with either case of prefix and digits, a sign or none and blanks around it, reads as itself in base 0 |
| `PyText.LeadingZeros` | SetupDataPkg/Tools/VariableList.py:149-149 | a decimal text with leading zeros is its number in base 10, and refused in base 0 unless it is zero |
| `PyText.UnderscoreIgnored` | SetupDataPkg/Tools/VariableList.py:149-149 | one underscore between digits is not read |
| `PyText.UnderscoreRefused` | SetupDataPkg/Tools/VariableList.py:149-149 | any other underscore is an error |
| `PyText.StripPadded` | SetupDataPkg/Tools/VariableList.py:240-246 | strip takes exactly the blanks around a text |
| `Formats.ArrayInBounds` | SetupDataPkg/Tools/VariableList.py:495-500 | the array check passes iff every element passes against its own bounds |
| `Formats.StructInBounds` | SetupDataPkg/Tools/VariableList.py:732-737 | the struct check passes iff every member passes against its own bounds |
| `Formats.BoundsNest` | SetupDataPkg/Tools/VariableList.py:542-544 | a value inside bounds that are themselves inside outer bounds is inside the outer bounds, for every nested format |
| `Formats.NoneInBounds` | SetupDataPkg/Tools/VariableList.py:173-178 | None passes any bounds an integer, bool or enum may have |
| `SchemaBuild.ParseShaped` | SetupDataPkg/Tools/VariableList.py:656-687 | whatever text is accepted, in any context, the object has the shape of its format |
| `SchemaBuild.CheckedBounds` | SetupDataPkg/Tools/VariableList.py:272-276 | a default that passes the check leaves no bound on a bool or an enum leaf |
| `SchemaBuild.MakeMemberOk` | SetupDataPkg/Tools/VariableList.py:537-544 | every member or knob the loader accepts has a default inside its bounds and bounds inside the format's |
| `SchemaBuild.MemberLoads` | SetupDataPkg/Tools/VariableList.py:514-544 | the declaration printed from any well-formed member of a readable format loads as that member, count, default, min and max included |
| `SchemaBuild.StructLoads` | SetupDataPkg/Tools/VariableList.py:573-605 | so does a whole struct |
| `SchemaBuild.EnumLoadsIff` | SetupDataPkg/Tools/VariableList.py:395-409 | an enum knob loads iff it declares no bounds and its default denotes a listed number |
| `SchemaBuild.BoolLoadsIff` | SetupDataPkg/Tools/VariableList.py:272-277 | a bool loads iff it declares no bounds |
| `SchemaBuild.IntLoadsIff` | SetupDataPkg/Tools/VariableList.py:537-544 | an integer loads iff its texts are numbers, the bounds fit the type and the default fits the bounds |
| `SchemaBuild.MakeStructOk` | SetupDataPkg/Tools/VariableList.py:573-605 | every struct the loader accepts is well formed when its member names differ |
| `Binary.DecodeEncode` | SetupDataPkg/Tools/VariableList.py:706-730 | whatever encodes has exactly size_in_bytes bytes and decodes to itself, for every nested format |
| `Binary.EncodeDecode` | SetupDataPkg/Tools/VariableList.py:706-730 | bytes of the right size decode to a value that encodes to the same bytes, but for bool bytes other than 0 written as 1 |
| `Binary.EncodeDecodeIff` | SetupDataPkg/Tools/VariableList.py:706-730 | bytes of the right size are what their own value encodes to iff every byte at a bool leaf is 0 or 1, for every nested format |
| `Binary.CheckedValueRoundTrips` | SetupDataPkg/Tools/VariableList.py:831-835 | a value that passed its bounds check encodes without error to exactly its size and decodes to itself |
| `Binary.InBoundsEncodesIff` | SetupDataPkg/Tools/VariableList.py:477-500 | a value inside the format's own bounds encodes iff every enum number in it fits 32 bits |
| `Binary.DecodeTotal` | SetupDataPkg/Tools/VariableList.py:483-493 | every byte string of the format's size decodes |
| `Binary.DecodeShaped` | SetupDataPkg/Tools/VariableList.py:715-724 | whatever decodes is well shaped |
| `Text.SplitBraces` | SetupDataPkg/Tools/VariableList.py:56-92 | the character loop computes the list, or the error, of the splitter automaton |
| `Text.SplitBracesInverts` | SetupDataPkg/Tools/VariableList.py:56-92 | splitting a joined brace list of balanced, trimmed segments gives the segments back |
| `Text.UnclosedBraceDropsElement` | SetupDataPkg/Tools/VariableList.py:89-92 | without the closing brace every element but the last is returned and no error is raised |
| `Text.SplitFailsIff` | SetupDataPkg/Tools/VariableList.py:56-92 | for every text: it raises iff something stands outside all braces before the list closes, or anything but spaces after; a list that never closes is no error by itself |
| `Text.SplitCounts` | SetupDataPkg/Tools/VariableList.py:72-76 | a closed list has one segment more than it has commas outside nested braces |
| `Text.EnumRoundTripIff` | SetupDataPkg/Tools/VariableList.py:354-384 | every number of an enum, listed or not, survives printing and parsing iff every printed pretty name is unambiguous |
| `Text.ParsePrint` | SetupDataPkg/Tools/VariableList.py:656-704 | the text round trip for every nested readable format, every well-shaped value and every context |
| `Text.TextRoundTripIff` | SetupDataPkg/Tools/VariableList.py:656-704 | all values of a format survive printing and parsing iff the format is readable, for pretty names with matching braces |
| `Text.CommaPrettyNameLost` | SetupDataPkg/Tools/VariableList.py:674-685 | a struct one of whose members prints with a comma outside braces is rejected when read back |
| `TextForms.RadixText` | SetupDataPkg/Tools/VariableList.py:148-153 | an integer knob reads every prefixed base, sign and padding |
| `TextForms.ZerosText` | SetupDataPkg/Tools/VariableList.py:354-370 | leading zeros are refused by an integer knob and read by an enum |
| `TextForms.BoolTextIff` | SetupDataPkg/Tools/VariableList.py:238-246 | a bool text is true iff it spells true, yes or 1, in any case and with any blanks around it |
| `TextForms.EnumTextIff` | SetupDataPkg/Tools/VariableList.py:354-372 | an enum text is a decimal number, else the first value of that name or pretty name, else an error |
| `TextForms.OneForAll` | SetupDataPkg/Tools/VariableList.py:441-450 | one element in braces stands for every element of an array |
| `TextForms.WrongLength` | SetupDataPkg/Tools/VariableList.py:451-462 | a brace list of any other length is an error for arrays and structs |
| `TextForms.EmptyIsZero` | SetupDataPkg/Tools/VariableList.py:140-147 | without declared defaults an empty text is the value that encodes to zeros |
| `Paths.SetGet` | SetupDataPkg/Tools/VariableList.py:837-897 | a successful subknob write is read back |
| `Paths.GetSet` | SetupDataPkg/Tools/VariableList.py:837-897 | every subknob of a well-shaped value can be read and written, and writing what is there changes nothing |
| `Paths.SetFrame` | SetupDataPkg/Tools/VariableList.py:856-897 | the tree update leaves every disjoint position as it was |
| `Paths.SetShaped` | SetupDataPkg/Tools/VariableList.py:856-897 | writing a well-shaped value at any subknob keeps the whole value well shaped |
| `Paths.SubKnobReadable` | SetupDataPkg/Tools/VariableList.py:609-654 | every subknob can be read in every well-shaped value and reads a value of its format |
| `Paths.SubKnobsExact` | SetupDataPkg/Tools/VariableList.py:609-654 | a path is listed as a subknob iff it reads something in a well-shaped value |
| `Paths.LeavesDisjoint` | SetupDataPkg/Tools/VariableList.py:609-654 | different leaf paths never overlap |
| `Paths.SubKnobsDistinct` | SetupDataPkg/Tools/VariableList.py:609-654 | no path occurs twice among the subknobs of a format |
| `Paths.SubKnobAtPath` | SetupDataPkg/Tools/VariableList.py:609-654 | the path determines the subknob |
| `PathText.PathRoundTrip` | SetupDataPkg/Tools/VariableList.py:837-913 | a path text decodes to exactly the path it was printed for |
| `PathText.PathNameInjective` | SetupDataPkg/Tools/VariableList.py:609-654 | different knobs or paths have different texts |
| `PathText.SubKnobNamed` | SetupDataPkg/Tools/VariableList.py:96-98 | with identifier member names every step of every subknob path is an identifier |
| `Sharing.WriteIsSetIff` | SetupDataPkg/Tools/VariableList.py:856-897 | the in-place assignment is the tree update for every new value iff the container it writes occurs once in the value |
| `Sharing.FreshWriteIsSet` | SetupDataPkg/Tools/VariableList.py:483-490 | on freshly decoded values it always is |
| `Sharing.RepeatedWriteSpreads` | SetupDataPkg/Tools/VariableList.py:425-428 | writing a member of one element of a repeated object writes it in every element |
| `Sharing.SetIsSetAt` | SetupDataPkg/Tools/VariableList.py:882-893 | walking a path of names is an update at the positions of those names |
| `ObjectTypes.AssignTyped` | SetupDataPkg/Tools/VariableList.py:888-893 | assigning an object of the slot's format keeps one format per container, wherever the container occurs |
| `ObjectTypes.AssignConsistent` | SetupDataPkg/Tools/VariableList.py:888-893 | after the assignment one identity is still one object |
| `ObjectTypes.SubKnobPositions` | SetupDataPkg/Tools/VariableList.py:609-654 | every subknob path leads to a position of the subknob's format |
| `ObjectTypes.BuildSound` | SetupDataPkg/Tools/VariableList.py:483-490 | a decoded value is a sound object |
| `ObjectTypes.RepeatedSound` | SetupDataPkg/Tools/VariableList.py:425-450 | so is a list that holds one object in every slot |
| `Validators.ScanExtremes` | SetupDataPkg/Tools/KnobService.py:693-699 | the scan returns the least and the greatest number |
| `Validators.FindHoles` | SetupDataPkg/Tools/KnobService.py:742-753 | the emitted holes are exactly the numbers of the range that no value has, in order |
| `Validators.EmitEnumCheck` | SetupDataPkg/Tools/KnobService.py:692-757 | the generator emits the switch form for sparse enums and the range with holes for dense ones |
| `Validators.CastExact` | SetupDataPkg/Tools/KnobService.py:728-732 | the cast keeps a 32-bit number modulo two to the power 32 inside int, and every number in 64 bits |
| `Validators.EnumCheckExact` | SetupDataPkg/Tools/KnobService.py:709-757 | for a cast of 32 and of 64 bits: the emitted check accepts exactly the listed numbers on the whole C type iff the cast has 64 bits, the switch form is used, or no number exceeds INT_MAX |
| `Validators.UnsafeEnumExample` | SetupDataPkg/Tools/KnobService.py:728-741 | a one-value enum at 2^31 whose only value is refused after a 32-bit cast |
| `Validators.BoundsByLeaves` | SetupDataPkg/Tools/VariableList.py:732-737 | the recursive check passes iff it passes at every leaf subknob |
| `Macros.EmitDefinitions` | SetupDataPkg/Tools/KnobService.py:427-445 | the macros of the header, knob by knob and leaf by leaf |
| `Macros.InHeader` | SetupDataPkg/Tools/KnobService.py:434-445 | the header defines exactly the bounds that differ from the type's own |
| `Macros.EndsDecide` | SetupDataPkg/Tools/KnobService.py:836-866 | tests read through any two definitions decide a range on the whole type once they decide it at its ends |
| `KnobValidators.EmitValidator` | SetupDataPkg/Tools/KnobService.py:778-879 | the two generator passes produce the accept-all macro or the flat list of leaf tests |
| `KnobValidators.AcceptAllIff` | SetupDataPkg/Tools/KnobService.py:778-801 | the accept-all macro is generated exactly for the knobs none of whose leaves needs a test |
| `KnobValidators.LeafAcceptsExact` | SetupDataPkg/Tools/KnobService.py:803-866 | on a representable faithful leaf the emitted tests decide exactly the leaf's bounds check, although bounds equal to the type's are omitted |
| `KnobValidators.ValidatorExact` | SetupDataPkg/Tools/KnobService.py:778-879 | where all leaves are faithful, the flat validator accepts exactly what the recursive check accepts |
| `KnobValidators.ValidatorExactIff` | SetupDataPkg/Tools/KnobService.py:778-879 | the validator is exact on every value of the C type iff no enum check loses a number and the macros in force decide every leaf at the ends of its range and type |
| `KnobValidators.SchemaExactIff` | SetupDataPkg/Tools/KnobService.py:427-445 | for every width of long and of the cast, with one literal suffix per macro: all validators of a schema are exact iff the enums are cast safe and no macro is defined with two numbers |
| `KnobValidators.SuffixExact` | SetupDataPkg/Tools/KnobService.py:838-866 | a comparison with the leaf's own bound under another suffix is right on the whole type iff the conversion it causes keeps the order |
| `MacroCollision.IndexedNamesCollide` | SetupDataPkg/Tools/KnobService.py:434-434 | two paths that differ only in that one has element i of a member n where the other has a member n_i_ have one macro name, at any depth and in every knob |
| `MacroCollision.CollidingMacros` | SetupDataPkg/Tools/KnobService.py:838-866 | a struct whose validator accepts an array value that the bounds check refuses |
| `MacroNames.MacroNamesDiffer` | SetupDataPkg/Tools/KnobService.py:434-434 | with names whose underscores stand alone inside, a macro name determines the knob and the path |
| `MacroNames.TameSchemaExactIff` | SetupDataPkg/Tools/KnobService.py:427-445 | in a schema of such names every validator is exact iff the enums are cast safe |
| `KnobValidators.AcceptedIsRepresentable` | SetupDataPkg/Tools/VariableList.py:537-544 | every in-bounds value fits the C types of its leaves |
| `KnobValidators.ReplaceLeaf` | SetupDataPkg/Tools/VariableList.py:856-897 | changing one leaf of an in-bounds value stays in bounds iff the new leaf is in its own bounds |
| `VarList.ReadVlistFromBuffer` | SetupDataPkg/Tools/VariableList.py:1106-1152 | the reader's loop ends on every byte string, also with negative sizes, and computes the record-by-record reading |
| `VarList.ReadFrame` | SetupDataPkg/Tools/VariableList.py:1109-1149 | a record at the front of any buffer is read as its variable and the bytes after it |
| `VarList.ReadExact` | SetupDataPkg/Tools/VariableList.py:1109-1149 | without negative size fields, what the reader accepts is exactly a complete record with the right checksum, and what it leaves is what follows |
| `VarList.WrongSumRefused` | SetupDataPkg/Tools/VariableList.py:1137-1139 | a record with any other checksum is refused |
| `VarList.NegativeNameReads` | SetupDataPkg/Tools/VariableList.py:1120-1147 | a negative name size down to -8 is accepted: what is cut out then, and that the checksum still decides |
| `VarList.ReadAllExact` | SetupDataPkg/Tools/VariableList.py:1106-1152 | without negative size fields a buffer reads as a list iff it is the concatenation of complete records for exactly these variables |
| `VarList.UnitsExact` | SetupDataPkg/Tools/VariableList.py:1142-1142 | exactly the names of even length decode, each from its own encoding |
| `VarList.StripNulsExact` | SetupDataPkg/Tools/VariableList.py:1142-1142 | strip takes all NULs at both ends of a name and nothing else |
| `VarList.ReadWriteAll` | SetupDataPkg/Tools/VariableList.py:1043-1067 | reading the concatenation of encoded records returns the variables in order |
| `VarList.RecordDataAt` | SetupDataPkg/Tools/VariableList.py:1059-1067 | where the data of the j-th record lies in the concatenation |
| `KnobStore.FindOwn` | SetupDataPkg/Tools/VariableList.py:998-1004 | with unique (namespace, name) pairs a subknob looked up by its own text is found |
| `ObjectStore.StoreObjectOk` | SetupDataPkg/Tools/VariableList.py:831-835 | an accepted assignment leaves a sound, well-shaped, in-bounds object, whatever is shared |
| `ObjectStore.WriteCopyIsSetIff` | SetupDataPkg/Tools/VariableList.py:856-897 | the assignment of a subknob is the update of that one place, for every new object, iff the written container occurs once |
| `ObjectStore.StoreObjectIsLens` | SetupDataPkg/Tools/VariableList.py:856-897 | the stored subknob is always read back, and where the container is not shared no other leaf changes |
| `ObjectStore.FillRow` | SetupDataPkg/Tools/VariableList.py:1194-1205 | a row that raises leaves all objects as they were |
| `ObjectStore.FilledIff` | SetupDataPkg/Tools/VariableList.py:1191-1206 | reading rows gives a value to exactly the knobs that a row names, under the namespace in force there, and leaves the others alone |
| `ObjectStore.UnknownRowIgnored` | SetupDataPkg/Tools/VariableList.py:1198-1204 | a row that names no knob of the schema is no error and changes nothing |
| `ObjectStore.UpdatedExact` | SetupDataPkg/Tools/VariableList.py:1191-1206 | the count returned is the number of rows that name a knob |
| `ObjectStore.BlankRowIgnored` | SetupDataPkg/Tools/VariableList.py:1194-1196 | a blank row changes nothing, the namespace in force included |
| `ObjectStore.ReachableOk` | SetupDataPkg/Tools/VariableList.py:773-787 | in every state reachable by any sequence of resets, CSV files, variable lists and assignments, with any sharing, every object is None or sound and every value well shaped and in bounds |
| `ObjectParser.MakeErases` | SetupDataPkg/Tools/VariableList.py:656-687 | the object built for an accepted text, with its shared parts, is an object for the value the text denotes |
| `ObjectParser.MakeConsistent` | SetupDataPkg/Tools/VariableList.py:431-455 | repeated elements, default lists and member defaults never make one identity two objects |
| `ObjectParser.ParserMakerOk` | SetupDataPkg/Tools/VariableList.py:656-687 | every accepted text gives a sound object for its value: the parser of the code is a maker as the reachability results ask |
| `ObjectParser.ParserReachable` | SetupDataPkg/Tools/VariableList.py:773-787 | ... so with the parser of the code every reachable state is sound, well shaped and in bounds |
| `ObjectParser.ParserSharesIff` | SetupDataPkg/Tools/VariableList.py:431-455 | in an array of structs two slots hold one object iff the text is empty or names one element, and two inner structs are one object iff the elements are or both texts are empty |
| `ObjectParser.PlainDefaultsOk` | SetupDataPkg/Tools/VariableList.py:538-538 | every member default is what some text parses to |
| `ObjectStore.ReachableEncodes` | SetupDataPkg/Tools/VariableList.py:1086-1095 | every reachable value encodes to exactly its size and decodes to itself |
| `ObjectStore.OverlaySimulates` | SetupDataPkg/Tools/VariableList.py:856-863 | reading rows commutes with laying objects over the default objects, row by row |
| `ObjectStore.ProfileOverlay` | SetupDataPkg/Tools/KnobService.py:1102-1137 | overrides read into an empty schema, over the defaults, are the configuration read into the defaults, with the same rejection and whatever is shared |
| `Schema.KnobSchema.GetKnob` | SetupDataPkg/Tools/VariableList.py:998-1004 | the nested search returns the first subknob with the namespace and text |
| `Schema.KnobSchema.SetSubKnob` | SetupDataPkg/Tools/VariableList.py:856-897 | the assignment updates one knob's object, shared containers everywhere, or nothing, and keeps the schema valid |
| `Schema.KnobSchema.ReadCsv` | SetupDataPkg/Tools/VariableList.py:1191-1206 | the row loop, its namespace shorthand and its count |
| `Schema.KnobSchema.UefiVariablesToKnobs` | SetupDataPkg/Tools/VariableList.py:1155-1159 | the variable loop |
| `Schema.KnobSchema.VlistToBinaryArray` | SetupDataPkg/Tools/VariableList.py:1086-1095 | the concatenation of the records of all valued knobs |
| `Schema.KnobSchema.GenerateDeltaBinaryArray` | SetupDataPkg/Tools/GenNCCfgData.py:305-312 | the concatenation of the records of all changed knobs |
| `Schema.KnobSchema.LoadDefaultFromBin` | SetupDataPkg/Tools/GenNCCfgData.py:284-290 | read, filter by the schema's own list, assign |
| `Schema.KnobSchema.AssignDefaults` | SetupDataPkg/Tools/GenNCCfgData.py:351-353 | every knob at its default |
| `Schema.KnobSchema.CollectOverrides` | SetupDataPkg/Tools/KnobService.py:1110-1137 | one entry for each knob that has a value, in schema order, and no other |
| `Schema.KnobSchema.GenerateProfile` | SetupDataPkg/Tools/KnobService.py:1099-1137 | the override table, written over the default objects, is the configuration of the profile's rows |
| `Delta.DeltaBinaryRestores` | SetupDataPkg/Tools/GenNCCfgData.py:284-312 | the delta binary exists iff every knob has a value or is a bool; loaded into a schema at defaults it restores every knob value, and false for a bool without one |
| `Delta.DeltaListsChanged` | SetupDataPkg/Tools/VariableList.py:1070-1082 | the delta binary, read back, has a variable for exactly the knobs whose values differ from their defaults |
| `Delta.DeltaAttributes` | SetupDataPkg/Tools/VariableList.py:1032-1038 | every variable of it is non-volatile and accessible at boot and at run time |
| `Delta.KnownToExact` | SetupDataPkg/Tools/GenNCCfgData.py:284-290 | the filter keeps each variable the schema's own list has, as often as it occurs, and no other |
| `Delta.ValuedCarries` | SetupDataPkg/Tools/VariableList.py:1086-1095 | the list of all values has a variable for exactly the knobs that have one |
| `ObjectDelta.DeltaBinaryRestoresObjects` | SetupDataPkg/Tools/GenNCCfgData.py:284-312 | ... also on the objects the tools keep |
| `Delta.CsvExportsIff` | SetupDataPkg/Tools/VariableList.py:1241-1264 | the whole-knob export raises unless every exported knob has a value or is a bool, every enum number in it fits 32 bits and every changed record its size fields, and only then |
| `Delta.RowsExact` | SetupDataPkg/Tools/VariableList.py:1241-1264 | one row for each exported knob, in schema order, with its name, its printed value, and a star iff the row before has the same namespace |
| `Delta.CsvRestores` | SetupDataPkg/Tools/VariableList.py:1241-1264 | the delta or full CSV, with its `*` namespaces, read into a schema at defaults restores every knob value, and false for a bool without one |
| `ObjectDelta.CsvRestoresObjects` | SetupDataPkg/Tools/VariableList.py:1191-1206 | ... also on the objects the tools keep |
| `ObjectDelta.FillRowsErase` | SetupDataPkg/Tools/VariableList.py:1191-1206 | on rows that name whole knobs, reading into objects is reading into values |
| `Delta.LoadChanged` | SetupDataPkg/Tools/VariableList.py:1070-1082 | loading the changed variables in order turns defaults into the state they were made from |
| `Delta.ReadOwnRows` | SetupDataPkg/Tools/VariableList.py:1194-1205 | the reader's namespace follows the writer's over every suffix of the rows |
| `Getters.GetConfPolicySize` | SetupDataPkg/Tools/KnobService.py:198-203 | the sum of the record sizes |
| `Getters.EmitOffsets` | SetupDataPkg/Tools/KnobService.py:208-245 | the running offset gives each getter the start of its data |
| `Getters.RecordSizeExact` | SetupDataPkg/Tools/KnobService.py:181-193 | get_variable_list_size is the length of the record the encoder makes |
| `Getters.GetterReadsKnob` | SetupDataPkg/Tools/KnobService.py:181-245 | the bytes at a getter offset are the knob's encoded value and the data the full reader returns; the policy has the generated size |
| `Getters.GetterDecodes` | SetupDataPkg/Tools/KnobService.py:272-289 | through the cache every getter returns its own knob's current value |
| `VarRecords.NeededSize` | SetupDataPkg/Library/ConfigVariableListLib/ConfigVariableListLib.c:32-58 | the checked additions fail iff the total exceeds 32 bits |
| `VarRecords.ParseFrame` | SetupDataPkg/Library/ConfigVariableListLib/ConfigVariableListLib.c:79-197 | a complete record parses whatever follows it |
| `VarRecords.ParsedIsFrame` | SetupDataPkg/Library/ConfigVariableListLib/ConfigVariableListLib.c:79-197 | whatever parses is a complete record with the right checksum |
| `VarRecords.FailuresExact` | SetupDataPkg/Library/ConfigVariableListLib/ConfigVariableListLib.c:79-197 | which of the two errors a buffer gives, on every buffer |
| `VarRecords.WrongSumCompromised` | SetupDataPkg/Library/ConfigVariableListLib/ConfigVariableListLib.c:79-197 | a complete record with any other checksum is compromised data |
| `VarRecords.ShortIsTooSmall` | SetupDataPkg/Library/ConfigVariableListLib/ConfigVariableListLib.c:79-197 | a buffer that ends anywhere inside a record is too small |
| `VarRecords.RecordsExact` | SetupDataPkg/Library/ConfigVariableListLib/ConfigVariableListLib.c:366-409 | a buffer parses to a list iff it is the concatenation of exactly these complete records |
| `VarRecords.StrnMatchesExact` | SetupDataPkg/Library/ConfigVariableListLib/ConfigVariableListLib.c:382-392 | the name comparison is equality for a terminated name and a prefix test for an unterminated one |
| `VarRecords.FindIsFirst` | SetupDataPkg/Library/ConfigVariableListLib/ConfigVariableListLib.c:366-419 | with terminated names the query finds the first record of the full list with the name, or nothing when none has it |
| `VarRecords.EncodersAgreeIff` | SetupDataPkg/Library/ConfigVariableListLib/ConfigVariableListLib.c:242-280 | firmware and Python encoders write the same bytes iff the name has at most 128 units and no NUL |
| `VarRecords.FirmwareReadsTools` | SetupDataPkg/Library/ConfigVariableListLib/ConfigVariableListLib.c:366-409 | the firmware reads a list written by the tools as the same variables, in order |
| `ConfigVarList.Convert` | SetupDataPkg/Library/ConfigVariableListLib/ConfigVariableListLib.c:79-197 | an entry in two new allocations, or the error and no allocation |
| `ConfigVarList.Append` | SetupDataPkg/Library/ConfigVariableListLib/ConfigVariableListLib.c:395-409 | the store is below the capacity, and so is the next one after growing |
| `ConfigVarList.Release` | SetupDataPkg/Library/ConfigVariableListLib/ConfigVariableListLib.c:421-441 | every name, data block and the list are freed exactly once |
| `ConfigVarList.ParseAll` | SetupDataPkg/Library/ConfigVariableListLib/ConfigVariableListLib.c:366-410 | the loop ends with all records in order or at the first bad one, owning exactly its allocations |
| `ConfigVarList.Retrieve` | SetupDataPkg/Library/ConfigVariableListLib/ConfigVariableListLib.c:317-444 | success iff the buffer is a non-empty concatenation of complete records; otherwise null, zero and nothing left allocated |
| `ConfigVarList.QuerySingle` | SetupDataPkg/Library/ConfigVariableListLib/ConfigVariableListLib.c:492-507 | the first matching record in two live allocations, or no allocation and the status of the code |
| `ConfigVarList.ConvertEntry` | SetupDataPkg/Library/ConfigVariableListLib/ConfigVariableListLib.c:218-297 | the record at the front of the buffer, the rest untouched; or the needed size and an untouched buffer |
| `BootMenu.EnterBootsExactly` | SetupDataPkg/ConfApp/BootOptions.c:171-187 | Enter boots option i iff the digits in the buffer are its printed key name, for at most 65536 options |
| `BootMenu.EnterWraps` | SetupDataPkg/ConfApp/BootOptions.c:184-187 | beyond that, the booted option has the typed name iff the entry is at most 65536 |
| `BootMenu.VisitBoots` | SetupDataPkg/ConfApp/BootOptions.c:161-208 | over every key sequence: at most five digits, no leading zero, and whatever boots exists and had its name in the buffer at the Enter that chose it |
| `BootMenu.BackspaceUndoes` | SetupDataPkg/ConfApp/BootOptions.c:192-205 | backspace after an accepted digit gives the page back |
| `BootMenu.FiveDigits` | SetupDataPkg/ConfApp/BootOptions.c:196-205 | a digit is refused exactly as a leading zero or after five digits, as many as 65536 has |
| `BootMenu.BufferIsKept` | SetupDataPkg/ConfApp/BootOptions.c:161-208 | over every key sequence the buffer is exactly the accepted digits that no later backspace or Enter has taken away, in order |
| `BootMenu.TypedBoots` | SetupDataPkg/ConfApp/BootOptions.c:161-208 | typing the printed name of any of up to 65536 options and Enter boots that option |
| `BootMenu.Menu.OnKey` | SetupDataPkg/ConfApp/BootOptions.c:171-205 | the in-place buffer edit of one keystroke |
| `BootMenu.Menu.FoldDigits` | SetupDataPkg/ConfApp/BootOptions.c:176-179 | the digit loop computes the number in the buffer |
| `SerialInput.SerialBuffer.Reserve` | SetupDataPkg/ConfApp/SetupConf.c:566-587 | the out-of-boundary branch is never taken and the next store is in the lower half |
| `SerialInput.SerialBuffer.Put` | SetupDataPkg/ConfApp/SetupConf.c:566-612 | one more character at the end, or NUL for a carriage return or line feed, nothing lost by growing |
| `SerialInput.SerialBuffer.Receive` | SetupDataPkg/ConfApp/SetupConf.c:556-620 | any run of characters: the payloads handed over at terminators and the text left in the buffer |
| `SerialInput.IntakeIsCut` | SetupDataPkg/ConfApp/SetupConf.c:588-612 | over every run they are the run cut at its terminators |
| `SerialInput.UncutCut` | SetupDataPkg/ConfApp/SetupConf.c:588-612 | the cut texts with their terminators are the run again, nothing lost, added or reordered |
| `ConfApp.RunOk` | SetupDataPkg/ConfApp/ConfApp.c:362-440 | at every point of every run, pages that are not active are in their initial state with cleared globals and no default branch was taken |
| `ConfApp.StepOk` | SetupDataPkg/ConfApp/ConfApp.c:362-440 | every turn of the main loop keeps that invariant |
| `ConfApp.NoUpdateAfterRefusal` | SetupDataPkg/ConfApp/SetupConf.c:149-175 | after a mode query answered "not manufacturing", no update state and no variable write until the setup page is left |
| `ConfApp.LockedStays` | SetupDataPkg/ConfApp/SetupConf.c:893-1043 | no turn except leaving the page unlocks the update options |
| `ConfApp.BootsNamedOption` | SetupDataPkg/ConfApp/BootOptions.c:171-216 | over every run, whatever boots exists and had its printed key name in the buffer at the Enter that chose it, for at most 65536 options |
| `ConfApp.NotReadyGoesOnIff` | SetupDataPkg/ConfApp/ConfApp.c:362-440 | in which states of any run a poll that is not ready leaves the power on |
| `ConfRuns.UpdateIff` | SetupDataPkg/ConfApp/SetupConf.c:149-175 | over every run, keys 1 and 2 start the updates iff every mode query since the setup page was entered answered "manufacturing", and lead to the error state otherwise |
| `ConfRuns.SetupKeysExact` | SetupDataPkg/ConfApp/SetupConf.c:913-931 | over every run, what each key does at the setup menu |
| `ConfRuns.MainKeysExact` | SetupDataPkg/ConfApp/ConfApp.c:272-310 | what each key does at the main menu |
| `ConfRuns.SysKeysExact` | SetupDataPkg/ConfApp/SystemInfo.c:263-311 | only Esc leaves the system information page |
| `ConfRuns.EscReturns` | SetupDataPkg/ConfApp/ConfApp.c:362-440 | from every state with power that is not about to boot, at most six presses of Esc lead to the main menu with every page cleared and nothing written |
| `ConfRuns.BootsTyped` | SetupDataPkg/ConfApp/BootOptions.c:161-216 | from the main menu: 2, the printed name of an option and Enter boot that option |
| `ConfRuns.UpdatesByUsb` | SetupDataPkg/ConfApp/SetupConf.c:933-948 | from the main menu: 3 and 1 apply a settings file and reset |
| `ConfRuns.UpdatesBySerial` | SetupDataPkg/ConfApp/SetupConf.c:950-981 | from the main menu: 3, 2, any characters and a terminator apply the text after the last terminator before it, and reset |
| `ConfRuns.WritesExact` | SetupDataPkg/ConfApp/SetupConf.c:556-620 | variables are written exactly in the turns that apply received settings |
| `ConfRuns.ResetsIff` | SetupDataPkg/ConfApp/ConfApp.c:362-440 | in every reachable state, exactly when a turn resets the system |
| `ConfRuns.DumpReturns` | SetupDataPkg/ConfApp/SetupConf.c:983-1030 | a dump ends in the setup menu, which asks for the mode again |
| `ConfApp.Application.CheckSupportedOptions` | SetupDataPkg/ConfApp/ConfApp.c:272-310 | the first usable option whose character and scan code match decides the state |
| `ConfApp.Application.SysInfoMgr` | SetupDataPkg/ConfApp/SystemInfo.c:263-311 | one turn of the system information page |
| `ConfApp.Application.BootOptionMgr` | SetupDataPkg/ConfApp/BootOptions.c:140-227 | one turn of the boot option page |
| `ConfApp.Application.ProcessSvdUsbInput` | SetupDataPkg/ConfApp/SetupConf.c:931-947 | the USB update state |
| `ConfApp.Application.ProcessSvdSerialInput` | SetupDataPkg/ConfApp/SetupConf.c:588-620 | one serial character, and the outcome of a complete payload |
| `ConfApp.Application.SetupConfMgr` | SetupDataPkg/ConfApp/SetupConf.c:882-1043 | one turn of the setup page |
| `ConfApp.Application.Turn` | SetupDataPkg/ConfApp/ConfApp.c:362-440 | one turn of the main loop, an error status resetting the system |
| `ConfApp.Application.Session` | SetupDataPkg/ConfApp/ConfApp.c:362-440 | the loop over a whole session reaches the state of the step relation, inside the invariant |
| `XmlMerge.MergeElements` | SetupDataPkg/Tools/VfrToXmlConverter.py:1956-2007 | the inner merge loop |
| `XmlMerge.MergeChildrenExact` | SetupDataPkg/Tools/VfrToXmlConverter.py:1956-2007 | the inner merge raises iff two values disagree and otherwise keeps the first side's word on every key, filled in from the second where allowed |
| `XmlMerge.NewAppended` | SetupDataPkg/Tools/VfrToXmlConverter.py:1956-2007 | children whose names the base does not have are appended as they are, a name repeated among them included |
| `XmlMerge.UnnamedLeftOut` | SetupDataPkg/Tools/VfrToXmlConverter.py:1972-1980 | children without a name are left out |
| `XmlMerge.MergeChildrenOrderIff` | SetupDataPkg/Tools/VfrToXmlConverter.py:1988-2003 | both orders raise together and agree on every key iff they raise, values are filled in, or no key is empty on exactly one side |
| `XmlMerge.MergeElemSection` | SetupDataPkg/Tools/VfrToXmlConverter.py:2023-2066 | the loop over enum or struct elements |
| `XmlMerge.MergeSectionExact` | SetupDataPkg/Tools/VfrToXmlConverter.py:2023-2066 | the same exactness for whole Enums and Structs sections |
| `XmlMerge.MergeKnobSection` | SetupDataPkg/Tools/VfrToXmlConverter.py:2069-2079 | the loop over knobs, which merges the whole section again at each known knob |
| `XmlMerge.MergeKnobsExact` | SetupDataPkg/Tools/VfrToXmlConverter.py:2069-2079 | despite the repeated merging, the same exactness for the Knobs section |
| `XmlMerge.MergeDocsExact` | SetupDataPkg/Tools/VfrToXmlConverter.py:2009-2082 | merging two files raises iff they disagree somewhere, else the result has the first file's word on every key |
| `XmlMerge.MergeDocsOrderIff` | SetupDataPkg/Tools/VfrToXmlConverter.py:2009-2082 | the two orders have the same outcome iff they raise or no enum value or knob type is empty in exactly one file |
| `XmlMerge.MergeAllExact` | SetupDataPkg/Tools/VfrToXmlConverter.py:1944-2090 | merging any number of files: exactly when it raises, and what it says about every key |
| `XmlMerge.MergeOrderIrrelevant` | SetupDataPkg/Tools/VfrToXmlConverter.py:1944-2090 | any order and any repetition of files of which every two conflict or leave no value half empty gives the same error or the same three maps |
| `XmlMerge.MergeOrderIff` | SetupDataPkg/Tools/VfrToXmlConverter.py:1944-2090 | order never matters for any selection of the files iff every two of them conflict or leave no enum value or knob type empty in exactly one |
| `BitField.SetBitsToBytes` | SetupDataPkg/Tools/CommonUtility.py:102-112 | the slice of the byte array that holds the field is rewritten in place |
| `BitField.RewrittenFits` | SetupDataPkg/Tools/CommonUtility.py:109-112 | the rewritten value always fits its bytes |
| `BitField.SetBitsBit` | SetupDataPkg/Tools/CommonUtility.py:102-112 | every bit inside the field is the value's, every other bit is unchanged |
| `BitField.SetThenGet` | SetupDataPkg/Tools/CommonUtility.py:90-112 | reading the field back gives the value modulo two to its length, for negative values too |
| `Smbios.CalcStringLength` | SetupDataPkg/Tools/BoardMiscInfo.py:77-85 | the scan for two zero bytes |
| `Smbios.ScanFindsEnd` | SetupDataPkg/Tools/BoardMiscInfo.py:77-85 | the scan ends exactly at the end of every well-formed string set |
| `Smbios.LocateEntry` | SetupDataPkg/Tools/BoardMiscInfo.py:88-118 | the walk loop and its None when nothing is found |
| `Smbios.WalkExact` | SetupDataPkg/Tools/BoardMiscInfo.py:95-113 | on every well-formed table the walk returns exactly the structures of the type before the end marker, in order |
| `Smbios.CutTableFails` | SetupDataPkg/Tools/BoardMiscInfo.py:95-113 | a table without an end marker that stops anywhere inside a structure raises |

## Left out

- Float and double formats, and the C-source text of values: rounding and literal syntax belong to Python and the C compiler.
- Array counts below zero, which the schema file type admits: they have no C rendering, so `count` is a natural number.
- Non-ASCII digits in integer texts, and UTF-16 surrogate pairs in variable names.
- The XML DOM, the schema file check, base64, CSV quoting and all file access: the model starts from attribute texts, rows, trees and bytes.
- `write_csv` with subknob rows, the detailed CSV, and the editor's shim entries.
- `QuerySingleActiveConfigAsciiVarList`, which widens the name and calls the same loop (and does not free the widened copy).
- Failed allocations, the shim and null libraries, console output, USB lookup and the variable services; a variable write is one counted event.
- VFR preprocessing, and the sharing of element objects between merged XML trees: `XmlMerge` works on values.
- Secure boot: its state has no case in the main loop and no key leads to it.
- ConfigVarList.Retrieve: and ConfigVarList.QuerySingle are the two modes of one C function, modelled as two methods.
- Text.TextRoundTripIff: pretty names with unmatched braces or outer blanks are not covered; inside a brace list such a name may pair with another member's, and whether the value survives then depends on both.
- Text.ParsePrint: the same.
- SchemaBuild.MakeStructOk: a struct that repeats a member name loads, with one dictionary entry for both; it has no C rendering and is not modelled.
- Paths.SetFrame: and the other laws of `Paths` are about value trees; `ObjectStore` says when the objects follow them.
