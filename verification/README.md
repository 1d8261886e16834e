# TDX tools: verified model

This project models, in Dafny, the parts of the TDX tools whose correctness rests on binary formats,
keyed state and multi-step runs, and proves what they promise.

- **UEFI variable store editor** (`Bytes`, `Text`, `Guid`, `Variable`, `StoreCodec`, `NormalForm`, `StoreOps`,
  `SignatureDb`, `Enrolment`, `Effects`, `SecureBoot`, `Capacity`, `Store`). It locates the NVRAM volume of a
  firmware image, parses the packed records of the variable store, edits the list and writes it back; `do_var_enroll`
  does so up to five times through one file. The main results are the exact round trip of reader and writer,
  the normal form of a pass, the refinement of a map by the edited list, the size invariant, and the equality
  of a whole multi-pass run with one in-memory run.
- **TD event log and RTMR replay** (`EventLog`, `LogRun`, `Replay`, `Actor`). The parsers invert the log format,
  the parsed records tile the log, batch replay equals the one-pass hardware, the replayed registers bind the
  log, and repeated calls are safe. SHA-384 is an arbitrary function to 48 bytes; collisions are computed,
  never assumed away.
- **Quote messages** (`Quote`), **domain files** (`XmlTree`, `VirtXml`, `DomainEffects`), **CPU groups** (`CpuGroups`)
  and **kernel command lines** (`Cmdline`).

Objects that the source changes in place are classes whose methods are proved against specification
functions on values; the theorems are about those functions. Python exceptions are modelled as results, Python
slices clamp as in Python, and attribute values and sizes are unbounded integers that packing checks.

Where code and documentation disagree the model follows the code. These places have their exact condition
proved: the file does not read as the edited list for a non-ASCII name, a GUID text with a tail or an
overrunning dbx file (`Enrolment.WrittenReadsBack`, with the inputs in `Enrolment.WideNameBlocksFile`,
`Enrolment.TailIsCut` and `Enrolment.OverrunShortens`); `var_enroll` returns True for deleting or updating a
missing variable (`Enrolment.CommandOutcome`, `Enrolment.RefusedReturnsTrue`); the quote request drops the last
24 bytes of its message (`Quote.RequestCarriesMessage`); events without payload raise (`LogRun.LogInverse`); a
removed kernel parameter can come back when other white space than the space is stripped
(`Cmdline.RemovedKeyIsGone`).

## Model

| member | source | states |
|---|---|---|
| Text.NameDecodes | utils/ovmfkeyenroll/ovmfkeyenroll/var_enroll.py:52-62 | a name written by `str2blob` decodes on the next read if and only if it is ASCII |
| Text.NameBytes | utils/ovmfkeyenroll/ovmfkeyenroll/var_enroll.py:52-62 | an ASCII name is stored as its characters in 16-bit little-endian units with a zero unit behind them |
| Text.NamesAreKeys | utils/ovmfkeyenroll/ovmfkeyenroll/var_enroll.py:52-62 | different names, ASCII or not, are stored as different blobs |
| Text.EncodedIsValid | utils/ovmfkeyenroll/ovmfkeyenroll/var_enroll.py:309-317 | the encoding of every text decodes |
| Text.ValidIsEncoded | utils/ovmfkeyenroll/ovmfkeyenroll/var_enroll.py:309-317 | bytes that decode are the encoding of a text |
| Guid.Str2GuidInverse | utils/ovmfkeyenroll/ovmfkeyenroll/var_enroll.py:23-50 | for every text that `str2guid` accepts, `guid2str` gives back its first 36 characters in lower case, so the whole text exactly when it has 36 characters |
| Guid.Guid2StrInverse | utils/ovmfkeyenroll/ovmfkeyenroll/var_enroll.py:31-50 | for every 16 bytes, `str2guid` accepts the printed text exactly when its version and variant digits match, and then gives the bytes back; printed texts are lower case, so parsed and added records share one key space |
| Guid.CanonicalAccepted | utils/ovmfkeyenroll/ovmfkeyenroll/var_enroll.py:23-50 | a text of 36 characters is accepted by `str2guid` exactly when `is_guid` accepts it |
| Guid.GuidPattern | utils/ovmfkeyenroll/ovmfkeyenroll/var_enroll.py:23-30 | `is_guid` matches its pattern, position by position, on the text in lower case |
| Guid.MixedEndian | utils/ovmfkeyenroll/ovmfkeyenroll/var_enroll.py:39-50 | byte i of the packed GUID is the pair of digits at its place in the text, the first three groups from back to front |
| Guid.TailCharacters | utils/ovmfkeyenroll/ovmfkeyenroll/var_enroll.py:39-50 | a tail that `uuid.UUID` ignores has no character besides those of urn:, uuid:, braces and dashes |
| Guid.TailExamples | utils/ovmfkeyenroll/ovmfkeyenroll/var_enroll.py:39-50 | braces in front of other text are not ignored, dashes in front of braces are |
| Guid.UrnTails | utils/ovmfkeyenroll/ovmfkeyenroll/var_enroll.py:39-50 | the prefixes of a URN are ignored |
| Variables.HeaderSlices | utils/ovmfkeyenroll/ovmfkeyenroll/var_enroll.py:268-307 | where each field of the 60-byte header lies |
| Variables.RecordStart | utils/ovmfkeyenroll/ovmfkeyenroll/var_enroll.py:299-307 | the record of a variable in use starts with the bytes AA 55 3F |
| Variables.HeaderInverse | utils/ovmfkeyenroll/ovmfkeyenroll/var_enroll.py:268-307 | unpacking a packed 60-byte header gives every field back |
| Variables.ParsedHeaderInverse | utils/ovmfkeyenroll/ovmfkeyenroll/var_enroll.py:268-307 | packing an unpacked header gives the same 60 bytes |
| Variables.RecordInverse | utils/ovmfkeyenroll/ovmfkeyenroll/var_enroll.py:299-317 | reading the record of a framed variable gives its name, data and header back |
| Variables.ParsedTimeInverse | utils/ovmfkeyenroll/ovmfkeyenroll/var_enroll.py:148-179 | a timestamp that is parsed and packed keeps its 16 bytes |
| Variables.TimeSlices | utils/ovmfkeyenroll/ovmfkeyenroll/var_enroll.py:148-179 | where each field of the 16-byte timestamp lies |
| Variables.TimeInverse | utils/ovmfkeyenroll/ovmfkeyenroll/var_enroll.py:148-179 | packing and parsing a timestamp gives the timestamp |
| StoreCodec.LocateInverse | utils/ovmfkeyenroll/ovmfkeyenroll/var_enroll.py:610-638 | on an image laid out as volume header, block map and store header, the search goes on for ever unless the volume GUID is the NVRAM one, and the store is found, where the headers say, exactly if its signature is the time-based authenticated one |
| StoreCodec.VolumeAccepted | utils/ovmfkeyenroll/ovmfkeyenroll/var_enroll.py:93-117 | the search ends exactly on an empty image or one whose first 56 bytes have `_FVH` at 40 and the NVRAM GUID at 16 |
| Enrolment.OtherStoreLeftAlone | utils/ovmfkeyenroll/ovmfkeyenroll/var_enroll.py:634-638 | a store of another kind is left alone by every command, and `var_enroll` returns False |
| StoreCodec.SearchEnds | utils/ovmfkeyenroll/ovmfkeyenroll/var_enroll.py:616-638 | the search loop stays at offset 0 for ever exactly when the image is nonempty and no NVRAM volume starts there; otherwise it ends in its first turn |
| StoreCodec.ReadBack | utils/ovmfkeyenroll/ovmfkeyenroll/var_enroll.py:456-511 | records written back to back are read back unchanged and in order, and the reader stops where the writer stopped, if and only if every name decodes and two more bytes can be looked at |
| StoreCodec.StoreRoundTrip | utils/ovmfkeyenroll/ovmfkeyenroll/var_enroll.py:442-511 | for every list that fits, writing and re-reading gives the same variables in the same order if and only if all names decode and the tail is readable |
| StoreCodec.RecordPadding | utils/ovmfkeyenroll/ovmfkeyenroll/var_enroll.py:459-465 | a record is followed by less than four bytes 0xFF up to a multiple of four |
| StoreCodec.WriterFrame | utils/ovmfkeyenroll/ovmfkeyenroll/var_enroll.py:446-470 | when the records fit, the writer keeps the image length, every byte outside the region, puts the records at the region's start and leaves the rest of it 0xFF |
| StoreCodec.WriterLength | utils/ovmfkeyenroll/ovmfkeyenroll/var_enroll.py:467-470 | without the fitting condition the image length is kept exactly while the records end inside the image |
| StoreCodec.WriteKeepsLayout | utils/ovmfkeyenroll/ovmfkeyenroll/var_enroll.py:357-377 | writing does not change what the next `find_var_info` finds |
| NormalForm.ReadGivesShape | utils/ovmfkeyenroll/ovmfkeyenroll/var_enroll.py:483-511 | every variable read has the shape the writer needs, its name and data as long as announced or cut by the end of the data, and all sizes are exact if and only if no ADDED record runs past the data |
| NormalForm.ReadsAdded | utils/ovmfkeyenroll/ovmfkeyenroll/var_enroll.py:489-509 | reading keeps exactly the records whose state is ADDED, in order |
| NormalForm.ReadCompacts | utils/ovmfkeyenroll/ovmfkeyenroll/var_enroll.py:456-511 | the re-encoded list is never longer than the bytes it was read from |
| NormalForm.PaddedLength | utils/ovmfkeyenroll/ovmfkeyenroll/var_enroll.py:459-465 | with exact sizes a record occupies the bytes the reader strides over |
| NormalForm.PassIsNormalForm | utils/ovmfkeyenroll/ovmfkeyenroll/var_enroll.py:442-511 | after one pass the image reads as the same list in the same place if and only if the reader can look past the last record, and a second write changes no byte |
| NormalForm.RoundTripExact | utils/ovmfkeyenroll/ovmfkeyenroll/var_enroll.py:442-511 | for every list that can be packed and fits, re-reading gives the list if and only if all its variables are well-formed and the reader can look past the last record, or the last one is announced longer than it is and ends with the volume |
| NormalForm.NormalFormOfImage | utils/ovmfkeyenroll/ovmfkeyenroll/var_enroll.py:442-511 | from the bytes alone, for every image that can be read: one read-then-write pass keeps exactly the ADDED records in order, well-formed if and only if none runs past the data; when they fit a second write is the identity, and they read back under an exact condition, also with a last record cut by the end of the volume |
| StoreOps.ApplyRefines | utils/ovmfkeyenroll/ovmfkeyenroll/var_enroll.py:379-440 | each of add, append, delete and update on a list with unique keys is the same command on its map, with the same outcome, and keeps the keys unique |
| StoreOps.RunRefines | utils/ovmfkeyenroll/ovmfkeyenroll/var_enroll.py:843-874 | the store refines a map over every sequence of commands |
| StoreOps.OtherKeysKept | utils/ovmfkeyenroll/ovmfkeyenroll/var_enroll.py:816-841 | a command on the list leaves every key it does not touch as it was |
| StoreOps.KeysAreNames | utils/ovmfkeyenroll/ovmfkeyenroll/var_enroll.py:434-440 | two commands mean the same variable exactly when they give the same name and the same GUID up to case |
| SignatureDb.ConstantsAccepted | utils/ovmfkeyenroll/ovmfkeyenroll/var_enroll.py:15-17 | the vendor and type GUID constants are accepted by `str2guid` |
| SignatureDb.ReadList | utils/ovmfkeyenroll/ovmfkeyenroll/var_enroll.py:578-600 | a signature list read in front of a database yields its one certificate with its owner and type, then the rest |
| SignatureDb.DatabaseReads | utils/ovmfkeyenroll/ovmfkeyenroll/var_enroll.py:640-666 | any number of concatenated certificate lists reads back as exactly those certificates with their owners, in order |
| SignatureDb.AppendedCertIsRead | utils/ovmfkeyenroll/ovmfkeyenroll/var_enroll.py:689-709 | appending a certificate to a stored database stores the database with that certificate added last |
| SignatureDb.RequestTimes | utils/ovmfkeyenroll/ovmfkeyenroll/var_enroll.py:711-772 | dbx carries its file's own 16-byte timestamp and the bytes behind the authentication header; PK, KEK and db carry the clock and a database holding one certificate; other variables carry the clock only with the authentication attribute |
| Effects.CommandEffect | utils/ovmfkeyenroll/ovmfkeyenroll/var_enroll.py:668-841 | what each command leaves, from its arguments and file alone: PK and KEK under 8BE4DF61-93CA-11d2-AA0D-00E098032B8C, db and dbx under d719b2cb-3d3a-4596-a3bc-dad00e67656f, others under their own GUID; attributes, timestamp and size; the data is the payload, behind what was there for append and update; other variables stay in their places, a new one comes last; PK is never appended |
| Effects.RequestAsks | utils/ovmfkeyenroll/ovmfkeyenroll/var_enroll.py:668-772 | the same of the request that the dispatch on the name builds |
| Effects.UpdateReplaces | utils/ovmfkeyenroll/ovmfkeyenroll/var_enroll.py:816-841 | updating an ordinary variable stores the bytes of the file alone |
| Effects.AppendAddsCertificate | utils/ovmfkeyenroll/ovmfkeyenroll/var_enroll.py:689-772 | appending to KEK or db stores all certificates that were there and the new X.509 certificate under its owner last |
| Enrolment.RequestSize | utils/ovmfkeyenroll/ovmfkeyenroll/var_enroll.py:656-666 | the announced size is the length of the data except for a dbx file whose header runs past its end |
| Enrolment.ApplySizes | utils/ovmfkeyenroll/ovmfkeyenroll/var_enroll.py:284-297 | a command keeps all sizes exact if and only if its dbx payload is in range |
| Enrolment.RunSizes | utils/ovmfkeyenroll/ovmfkeyenroll/var_enroll.py:417-430 | sizes stay exact over every run of in-range commands |
| Enrolment.CreatedSound | utils/ovmfkeyenroll/ovmfkeyenroll/var_enroll.py:401-432 | a new variable has the form in which the reader returns variables (start id, state, exact sizes, printed GUID, decodable name) if and only if its name is ASCII, its GUID text has 36 characters, its attributes fit 32 bits and its size is right |
| Enrolment.ApplySound | utils/ovmfkeyenroll/ovmfkeyenroll/var_enroll.py:782-841 | commands within those limits keep every variable readable |
| Enrolment.CommandOutcome | utils/ovmfkeyenroll/ovmfkeyenroll/var_enroll.py:379-440 | a command is refused exactly when it deletes or updates a missing variable, and raises exactly when its request or the GUID of its new variable cannot be built |
| Enrolment.PacksExactly | utils/ovmfkeyenroll/ovmfkeyenroll/var_enroll.py:299-307 | what a command makes of the list can be packed exactly when attributes, name size and new data size of its own record fit 32 bits |
| Enrolment.PassOutcome | utils/ovmfkeyenroll/ovmfkeyenroll/var_enroll.py:913-944 | `var_enroll` on every readable image, for every command: it returns True exactly when the arguments pass, nothing raises and the record packs, and writes exactly when such a command is done |
| Enrolment.TurnedDown | utils/ovmfkeyenroll/ovmfkeyenroll/var_enroll.py:887-911 | `var_enroll` returns False and leaves the file alone for an invalid GUID, a missing file, or missing attributes of an ordinary variable |
| Enrolment.NotTurnedDown | utils/ovmfkeyenroll/ovmfkeyenroll/var_enroll.py:887-911 | and for no other arguments |
| Enrolment.WrittenReadsBack | utils/ovmfkeyenroll/ovmfkeyenroll/var_enroll.py:442-511 | the file written for a command reads as the edited list if and only if the command is within the limits: an ASCII name and a GUID without tail for an ordinary variable, a dbx header inside its file |
| Enrolment.PassIsEdit | utils/ovmfkeyenroll/ovmfkeyenroll/var_enroll.py:913-944 | one file pass, for every command: True exactly for the accepted commands, the same length, the file left alone by a command that is turned down, refused or raising; the image reads as the edited list, in the same layout, if and only if the command wrote nothing or is within the limits |
| Enrolment.RefusedReturnsTrue | utils/ovmfkeyenroll/ovmfkeyenroll/var_enroll.py:934-944 | deleting or updating a missing variable returns True and leaves the file alone |
| Enrolment.PassesAreRun | utils/ovmfkeyenroll/ovmfkeyenroll/var_enroll.py:843-944 | any number of file passes equals one in-memory run: success exactly when every command is accepted, and the file reads as the list reached if and only if the last command is within the limits too |
| Enrolment.RunTracks | utils/ovmfkeyenroll/ovmfkeyenroll/var_enroll.py:843-944 | for every run that fits, every pass is an edit of the list if and only if every command that writes is within the limits |
| Enrolment.AcceptedIsRun | utils/ovmfkeyenroll/ovmfkeyenroll/var_enroll.py:843-874 | a run accepted to its end is the run of the commands on the list |
| Enrolment.WideNameBlocksFile | utils/ovmfkeyenroll/ovmfkeyenroll/var_enroll.py:309-317 | a variable added under a non-ASCII name is written, and afterwards every `var_enroll` on the file raises |
| Enrolment.TailIsCut | utils/ovmfkeyenroll/ovmfkeyenroll/var_enroll.py:39-50 | a variable added under a GUID with an ignored tail is written, and read under the 36-character key: the file does not read as the edited list, and holds two variables with one key if that key was there |
| Enrolment.BraceIsTail | utils/ovmfkeyenroll/ovmfkeyenroll/var_enroll.py:39-50 | a closing brace is such a tail |
| Enrolment.OverrunShortens | utils/ovmfkeyenroll/ovmfkeyenroll/var_enroll.py:284-297 | an overrunning dbx file appended to enough data is written with its size lowered by the overrun and all its data; the file does not read as the edited list |
| Enrolment.OverrunFile | utils/ovmfkeyenroll/ovmfkeyenroll/var_enroll.py:735-740 | twenty bytes that announce twenty-one are such a file |
| SecureBoot.AddsAreStored | utils/ovmfkeyenroll/ovmfkeyenroll/secure_boot.py:162-208 | after a run of additions under different keys each is stored with its own data and all other keys are as before |
| SecureBoot.StepsAreOrdered | utils/ovmfkeyenroll/ovmfkeyenroll/secure_boot.py:162-208 | the steps are PK, KEK, db, dbx and SecureBootEnable in that order, exactly those configured, each with its entry's GUID and file |
| SecureBoot.StepsAreDistinct | utils/ovmfkeyenroll/ovmfkeyenroll/secure_boot.py:162-208 | the five variables have different keys and overwrite |
| SecureBoot.RunOutcome | utils/ovmfkeyenroll/ovmfkeyenroll/secure_boot.py:162-208 | whatever the store holds, the run is completed exactly when every step is acceptable: a GUID that both checks accept, an existing file of 32-bit size, a dbx header inside its file; every step leaves the file readable but SecureBootEnable under a GUID with a tail |
| SecureBoot.ConfigIsSteps | utils/ovmfkeyenroll/ovmfkeyenroll/secure_boot.py:162-208 | that is the case exactly when every configured entry is acceptable |
| SecureBoot.RunKeys | utils/ovmfkeyenroll/ovmfkeyenroll/secure_boot.py:162-208 | a run of additions keeps all keys in their places and puts the missing ones behind, in order |
| SecureBoot.WholeRun | utils/ovmfkeyenroll/ovmfkeyenroll/secure_boot.py:140-220 | for every configuration: when every intermediate list fits, `do_var_enroll` succeeds exactly when the configuration is acceptable, with the length kept; the image reads as the list the additions reach in memory, in the same layout, if and only if SecureBootEnable was not enrolled under a GUID with a tail; after success that list holds PK, KEK, db, dbx and SecureBootEnable, those configured, under their names and vendor GUIDs with the attributes, times and certificates or payloads of their entries, new ones last and in that order, every other variable unchanged in its place |
| Capacity.SpaceIsEnough | utils/ovmfkeyenroll/ovmfkeyenroll/var_enroll.py:459-470 | for every run, space for the records present and one more record per command is enough for every intermediate list to fit |
| Capacity.NewKeysFit | utils/ovmfkeyenroll/ovmfkeyenroll/var_enroll.py:459-470 | for additions under new keys that bound is exact: every intermediate list fits if and only if all records together do |
| Capacity.ImageReads | utils/ovmfkeyenroll/ovmfkeyenroll/var_enroll.py:483-511 | an image laid out as volume header, block map, store header, records and 0xFF reads as exactly its records, if and only if a single free byte is not the last of the volume |
| Capacity.EnrolFirmware | utils/ovmfkeyenroll/ovmfkeyenroll/secure_boot.py:140-220 | end to end, from conditions known before the run: for any such image with any variables and any configuration that fits beside them, `do_var_enroll` succeeds exactly when the configuration is acceptable, with length and other variables kept and the exact condition for reading the result |
| Capacity.FreshFirmware | utils/ovmfkeyenroll/ovmfkeyenroll/var_enroll.py:96-117 | every configuration whose records fit a 32-bit store has an image that meets these conditions |
| Store.VariableTimeBasedAuth.FromHeader | utils/ovmfkeyenroll/ovmfkeyenroll/var_enroll.py:244-282 | the object holds the fields of the header |
| Store.VariableTimeBasedAuth.Create | utils/ovmfkeyenroll/ovmfkeyenroll/var_enroll.py:416-429 | the object is the variable that `add_variable` creates |
| Store.VariableTimeBasedAuth.Change | utils/ovmfkeyenroll/ovmfkeyenroll/var_enroll.py:284-297 | in-place update of attributes, timestamp, data and size, in both modes |
| Store.VariableTimeBasedAuth.Pack | utils/ovmfkeyenroll/ovmfkeyenroll/var_enroll.py:299-307 | the record bytes, or an exception for a field outside 32 bits |
| Store.VariableTimeBasedAuth.ParseBody | utils/ovmfkeyenroll/ovmfkeyenroll/var_enroll.py:309-317 | name and data cut from the record; raises when the name does not decode |
| Store.VariableStore.SyncToVarsList | utils/ovmfkeyenroll/ovmfkeyenroll/var_enroll.py:483-511 | the list and `vars_size` become what the reading specification says, or its exception is raised |
| Store.VariableStore.FindVarInList | utils/ovmfkeyenroll/ovmfkeyenroll/var_enroll.py:434-440 | the index of the first variable with the key |
| Store.VariableStore.AddVariable | utils/ovmfkeyenroll/ovmfkeyenroll/var_enroll.py:401-432 | the list becomes the specified one, updated in place or extended; unchanged on an exception |
| Store.VariableStore.DelVariable | utils/ovmfkeyenroll/ovmfkeyenroll/var_enroll.py:379-399 | the first variable with the key is removed, or nothing changes and False is returned |
| Store.VariableStore.PackAll | utils/ovmfkeyenroll/ovmfkeyenroll/var_enroll.py:456-465 | the concatenation of all padded records, or an exception |
| Store.VariableStore.SyncToFile | utils/ovmfkeyenroll/ovmfkeyenroll/var_enroll.py:442-481 | the written image is the specified one, or an exception before anything is written |
| Store.FindVarInfo | utils/ovmfkeyenroll/ovmfkeyenroll/var_enroll.py:610-638 | the store found with its list, None for an unsupported store, or the exception |
| Store.EnrollNamed | utils/ovmfkeyenroll/ovmfkeyenroll/var_enroll.py:668-814 | the dispatch on the variable's name, then the store operation; unchanged on an exception |
| Store.UpdateVariable | utils/ovmfkeyenroll/ovmfkeyenroll/var_enroll.py:816-841 | find, delete and add in append mode; after an exception the variable is deleted |
| Store.RunCommand | utils/ovmfkeyenroll/ovmfkeyenroll/var_enroll.py:843-874 | `process_var`: the written image, a refusal, or an exception |
| Store.EnrollFile | utils/ovmfkeyenroll/ovmfkeyenroll/var_enroll.py:913-944 | `var_enroll`: return value and resulting file |
| Store.FittingRunEnds | utils/ovmfkeyenroll/ovmfkeyenroll/var_enroll.py:619-627 | in every run whose written lists fit, no pass loses the volume, so every search ends |
| Store.RunWritesFit | utils/ovmfkeyenroll/ovmfkeyenroll/var_enroll.py:619-627 | that is so in particular when the in-memory lists of the run fit |
| Store.DoVarEnroll | utils/ovmfkeyenroll/ovmfkeyenroll/secure_boot.py:140-220 | the passes over one file in their order, stopping at the first failure |
| EventLog.SpecIdInverse | attestation/pytdxattest/pytdxattest/tdeventlog.py:204-219 | parsing an encoded Spec ID record recovers it, whatever follows |
| EventLog.TruncatedAlgorithms | attestation/pytdxattest/pytdxattest/tdeventlog.py:204-219 | a Spec ID record that breaks off in or behind its algorithms raises and leaves the sizes read so far |
| EventLog.TruncatedFixed | attestation/pytdxattest/pytdxattest/tdeventlog.py:165-180 | one that breaks off in its fixed part raises and leaves the fields read so far |
| EventLog.EventInverse | attestation/pytdxattest/pytdxattest/tdeventlog.py:253-267 | parsing an encoded event recovers it if and only if its payload and digests are nonempty, and raises otherwise |
| EventLog.DigestsInverse | attestation/pytdxattest/pytdxattest/tdeventlog.py:256-262 | the digest loop recovers the digests and the last algorithm, unless one is empty |
| EventLog.ReadBytes | attestation/pytdxattest/pytdxattest/binaryblob.py:70-77 | `get_bytes` returns the field, or an unusable None for length 0 |
| EventLog.ReadUint | attestation/pytdxattest/pytdxattest/binaryblob.py:42-68 | the little-endian getters read back what was packed |
| LogRun.LogInverse | attestation/pytdxattest/pytdxattest/actor.py:131-155 | for every Spec ID record and every list of valid events, ended by a 0xFFFFFFFF record or by the length, `process` recovers exactly header, registers, types, digests, lengths and addresses, or raises if a payload or digest is empty |
| LogRun.FormatConstants | attestation/pytdxattest/pytdxattest/actor.py:140-147 | four bytes 0xFF end the log, and a Spec ID record has type 3 |
| LogRun.RecordsTile | attestation/pytdxattest/pytdxattest/actor.py:135-155 | in every run on any log the records are contiguous, their bytes concatenate to the slice of the log that was read, and the header in force is the last one met |
| LogRun.DumpIsTrue | attestation/pytdxattest/pytdxattest/actor.py:182-201 | the dump prints the true address of the header and of every event if and only if the first record is the only EV_NO_ACTION record |
| Replay.FoldLaw | attestation/pytdxattest/pytdxattest/actor.py:103-113 | no digest replays to 48 zero bytes, and one more digest to the hash of the value so far followed by it |
| Replay.ReplayBinds | attestation/pytdxattest/pytdxattest/actor.py:103-113 | two different digest lists with one replayed value yield a computed collision or, only for different lengths, a computed preimage of 48 zero bytes |
| Replay.HardwareLaw | attestation/pytdxattest/pytdxattest/actor.py:157-180 | the hardware starts from zero bytes and an event extends its own register with its first digest |
| Replay.BatchIsHardware | attestation/pytdxattest/pytdxattest/actor.py:157-180 | partitioning by register and folding equals one extension per event, for every interleaving |
| Replay.SameStreams | attestation/pytdxattest/pytdxattest/actor.py:157-180 | only the order within each register matters |
| Replay.SwapKeepsRegisters | attestation/pytdxattest/pytdxattest/actor.py:172-178 | swapping neighbouring events of different registers changes nothing |
| Replay.RegistersBind | attestation/pytdxattest/pytdxattest/actor.py:157-180 | two logs with equal registers measured the same digests in order, register by register, or break the hash |
| Replay.RtmrEqualsIsEquality | attestation/pytdxattest/pytdxattest/rtmr.py:31-35 | on 48-byte registers the comparison is equality |
| Actor.RepeatSafe | attestation/pytdxattest/pytdxattest/actor.py:121-213 | once a header is parsed, any sequence of process, replay and dump calls keeps header and events, and every replay has the same outcome |
| Actor.SecondProcess | attestation/pytdxattest/pytdxattest/actor.py:125-155 | a second `process` adds nothing if and only if the first met a header or no event |
| Actor.EncodedLogReplays | attestation/pytdxattest/pytdxattest/actor.py:157-180 | the bytes of a well-formed log replay to the registers of the hardware that measured its events; replay raises exactly when an event has no digest or another register |
| Actor.EncodedLogRaises | attestation/pytdxattest/pytdxattest/actor.py:121-201 | on a log with an event without payload or digest process, replay and dump raise and no register is set |
| Actor.DumpParses | attestation/pytdxattest/pytdxattest/actor.py:182-201 | dumping a well-formed log parses it and does not raise |
| Actor.DumpNeedsHeader | attestation/pytdxattest/pytdxattest/actor.py:121-134 | without a file process does nothing and a dump raises; an empty file fails an assertion |
| Actor.LogRegisters | attestation/pytdxattest/pytdxattest/actor.py:157-180 | each register that the bytes of a log replay to is the fold of the first digests of its events |
| Actor.FirstRegisters | attestation/pytdxattest/pytdxattest/actor.py:103-113 | a register without events is 48 zero bytes, with one event the hash of zeros and its digest |
| Actor.LogsBind | attestation/pytdxattest/pytdxattest/actor.py:157-180 | two well-formed log files whose replays leave equal registers carry the same digests in order, register by register, or break the hash; the same digests leave the same registers |
| Actor.TDEventLogSpecIdHeader.Parse | attestation/pytdxattest/pytdxattest/tdeventlog.py:204-219 | the fields of the header, including what is left after an exception |
| Actor.TDEventLogSpecIdHeader.ParseAlgorithms | attestation/pytdxattest/pytdxattest/tdeventlog.py:211-214 | the dictionary of digest sizes |
| Actor.TDEventLogEntry.Parse | attestation/pytdxattest/pytdxattest/tdeventlog.py:253-267 | the fields of the entry, or the exception and what was parsed before it |
| Actor.TDEventLogEntry.ReadDigests | attestation/pytdxattest/pytdxattest/tdeventlog.py:256-262 | the digest list and last algorithm, or the exception and what was read before it |
| Actor.TDEventLogActor.ProcessLog | attestation/pytdxattest/pytdxattest/actor.py:121-155 | the header and event list after `process`, also after an exception |
| Actor.TDEventLogActor.Loop | attestation/pytdxattest/pytdxattest/actor.py:135-155 | the loop refines the run specification |
| Actor.TDEventLogActor.ParseHeaderAt | attestation/pytdxattest/pytdxattest/actor.py:143-147 | the turn on a header record: the header field, also after an exception |
| Actor.TDEventLogActor.ParseEntryAt | attestation/pytdxattest/pytdxattest/actor.py:148-152 | the turn on an event: the list extended, or the exception |
| Actor.TDEventLogActor.ReplaySingle | attestation/pytdxattest/pytdxattest/actor.py:104-113 | the rolling hash of the first digests, or an exception if one is missing |
| Actor.TDEventLogActor.Partition | attestation/pytdxattest/pytdxattest/actor.py:168-173 | the entries of each register in order, or an exception for an unknown register |
| Actor.TDEventLogActor.FoldGroups | attestation/pytdxattest/pytdxattest/actor.py:175-180 | the four registers exactly when every entry is measured |
| Actor.TDEventLogActor.ReplayLog | attestation/pytdxattest/pytdxattest/actor.py:157-180 | state and exception after `replay` |
| Actor.TDEventLogActor.DumpLogs | attestation/pytdxattest/pytdxattest/actor.py:182-201 | the addresses printed, and the state after `process` |
| Quote.RequestReads | attestation/pytdxattest/pytdxattest/utility.py:225-240 | the message is a version 1.0 request for exactly the report with no id list; the buffer announces its length |
| Quote.RequestCarriesMessage | attestation/pytdxattest/pytdxattest/utility.py:320-335 | the request buffer carries the length-prefixed message if and only if it fits, the report has at least 17 bytes and its last 24 bytes are zero |
| Quote.RequestFits | attestation/pytdxattest/pytdxattest/utility.py:302-335 | the request is built exactly for reports that fit the 16384 bytes behind its head |
| Quote.ResponseDecodes | attestation/pytdxattest/pytdxattest/utility.py:242-262 | every response decodes, whatever the padding and error code, to the first bytes of id and quote, so to its quote if and only if the quote begins like the id and repeats itself at that distance, as always without an id; only a response wrong in all four fields is turned down |
| Quote.ShortBuffers | attestation/pytdxattest/pytdxattest/utility.py:351-362 | what buffers too short for a response give |
| Quote.SelectedIdSpoilsQuote | attestation/pytdxattest/pytdxattest/utility.py:262-262 | a one-byte id makes the decoded quote wrong |
| Quote.DeviceNode.CreateTdxQuoteReq | attestation/pytdxattest/pytdxattest/utility.py:302-335 | the zero-filled buffer with the request in front, or the exception |
| Quote.DeviceNode.GetTdquoteBytes | attestation/pytdxattest/pytdxattest/utility.py:351-362 | the decoded quote of the buffer |
| XmlTree.SetThenLookup | utils/pycloudstack/pycloudstack/virtxml.py:548-573 | setting succeeds exactly when the element is found, and the lookup then gives the edited element |
| XmlTree.AttribIsSet | utils/pycloudstack/pycloudstack/virtxml.py:565-573 | setting an attribute changes that attribute of the element found and nothing else about it |
| XmlTree.TextIsSet | utils/pycloudstack/pycloudstack/virtxml.py:548-563 | setting the text changes the text and nothing else about it |
| XmlTree.AttribKeepsInside | utils/pycloudstack/pycloudstack/virtxml.py:565-573 | and is not seen by lookups inside the element |
| XmlTree.SetKeepsApart | utils/pycloudstack/pycloudstack/virtxml.py:512-563 | an edit does not change a lookup along a path that parts from its own |
| XmlTree.DeleteKeepsApart | utils/pycloudstack/pycloudstack/virtxml.py:613-631 | nor does a deletion |
| XmlTree.DeleteThenLookup | utils/pycloudstack/pycloudstack/virtxml.py:613-631 | after deleting a found element the lookup finds nothing |
| XmlTree.DeleteFirst | utils/pycloudstack/pycloudstack/virtxml.py:613-631 | a deletion removes the first element with the tag and keeps the others in order |
| XmlTree.AddKeepsApart | utils/pycloudstack/pycloudstack/virtxml.py:575-611 | nor does an addition |
| XmlTree.AddThenLookup | utils/pycloudstack/pycloudstack/virtxml.py:575-611 | an element added without duplicates is found if and only if no step of its path is ambiguous; it is what was there with the attributes added, or a new element |
| XmlTree.AddKeepsUnambiguous | utils/pycloudstack/pycloudstack/virtxml.py:575-611 | an addition keeps every parting path unambiguous |
| VirtXml.SetFieldAgrees | utils/pycloudstack/pycloudstack/virtxml.py:69-185 | a setter, given text, None or a number, keeps cache and tree in agreement, and the lookup then equals the value, converted where the setter converts, whenever the element was there |
| VirtXml.CacheAgrees | utils/pycloudstack/pycloudstack/virtxml.py:378-401 | after load and any sequence of setters and set_* calls, raising ones included, every cached text field equals the lookup |
| VirtXml.CacheIsTexts | utils/pycloudstack/pycloudstack/virtxml.py:378-401 | by tags: load and every later state cache the texts of name, uuid, os/kernel, os/cmdline, vcpu, memory and os/loader |
| VirtXml.SettersByTag | utils/pycloudstack/pycloudstack/virtxml.py:69-185 | by tags: each setter changes its own text in the domain and no other |
| VirtXml.NoneDeletesByTag | utils/pycloudstack/pycloudstack/virtxml.py:95-143 | by tags: None removes os/kernel or os/cmdline and changes no other text |
| VirtXml.NumberIsStored | utils/pycloudstack/pycloudstack/virtxml.py:145-185 | a whole number assigned to the memory or vcpu field is what the lookup gives as text, and assigning again changes nothing exactly for the same number |
| VirtXml.IntTextDenotes | utils/pycloudstack/pycloudstack/virtxml.py:153-185 | the text of a number is its decimal digits, behind a minus sign if it is negative |
| VirtXml.NumbersByValue | utils/pycloudstack/pycloudstack/virtxml.py:69-80 | equal numbers of both kinds are one value to the early return, other numbers are not |
| VirtXml.FractionIsRounded | utils/pycloudstack/pycloudstack/virtxml.py:153-164 | a fraction assigned to memory is stored as the nearest whole number |
| VirtXml.PropertyIsStored | utils/pycloudstack/pycloudstack/virtxml.py:187-330 | a device or topology property set to a new value is what the lookup gives, and setting it again is skipped |
| DomainEffects.PropertiesByTag | utils/pycloudstack/pycloudstack/virtxml.py:187-330 | by tags: which element and attribute each property setter writes |
| DomainEffects.MissingByTag | utils/pycloudstack/pycloudstack/virtxml.py:260-313 | which setters raise without their element |
| DomainEffects.LoadedByTag | utils/pycloudstack/pycloudstack/virtxml.py:393-398 | which attributes load caches, and when it raises |
| DomainEffects.HugepagesByTag | utils/pycloudstack/pycloudstack/virtxml.py:658-668 | only 2M and 1G are taken; size and unit of the page element |
| DomainEffects.HugepagePathByTag | utils/pycloudstack/pycloudstack/virtxml.py:795-802 | the text of memoryBacking/path |
| DomainEffects.MemNumaByTag | utils/pycloudstack/pycloudstack/virtxml.py:725-735 | a strict policy on node 0 or 1 |
| DomainEffects.VsockByTag | utils/pycloudstack/pycloudstack/virtxml.py:771-780 | the address and model of the vsock device |
| DomainEffects.VtpmByTag | utils/pycloudstack/pycloudstack/virtxml.py:804-813 | the texts of the vTPM loader and log |
| DomainEffects.BindByTag | utils/pycloudstack/pycloudstack/virtxml.py:708-723 | `bind_cpuids` raises for fewer than two CPUs; the pins it adds, behind those that were there |
| DomainEffects.ArgumentsByTag | utils/pycloudstack/pycloudstack/virtxml.py:680-706 | the arguments handed to QEMU, behind those that were there, in order |
| DomainEffects.DiskByTag | utils/pycloudstack/pycloudstack/virtxml.py:782-793 | the new disk, behind the others, with the io and cache modes of the first |
| VirtXml.BindPins | utils/pycloudstack/pycloudstack/virtxml.py:708-723 | `bind_cpuids` pins the I/O thread to the first CPU and vcpu k to CPU k + 1, behind existing pins |
| VirtXml.GroupPinsAreExclusive | utils/pycloudstack/pycloudstack/virtxml.py:714-722 | with a strided group every vcpu, a single one included, has its own number and CPU, apart from the I/O thread's |
| VirtXml.VirtXml.Load | utils/pycloudstack/pycloudstack/virtxml.py:378-401 | the cached text fields agree with the loaded tree, the disk properties are its attributes, and the exception comes exactly without driver or source |
| VirtXml.VirtXml.GetSingleElementValue | utils/pycloudstack/pycloudstack/virtxml.py:521-546 | the walk returns the specified lookup |
| VirtXml.VirtXml.Assign | utils/pycloudstack/pycloudstack/virtxml.py:69-185 | tree and cache after a setter, for text, None and numbers; they agree |
| VirtXml.VirtXml.Change | utils/pycloudstack/pycloudstack/virtxml.py:187-813 | tree and cached properties after a property setter or set_* method, with the early return on an equal value, or the exception; cache and tree agree |
| CpuGroups.GetCpuidsGroup | utils/pycloudstack/pycloudstack/dut.py:109-126 | the strided groups, or the assertion failure exactly when there are not more CPUs than needed |
| CpuGroups.GroupsPartition | utils/pycloudstack/pycloudstack/dut.py:117-126 | for distinct CPUs the groups have no repeats, are pairwise disjoint and together are exactly the first vm_num * (core_num + 1) CPUs |
| CpuGroups.StrideExample | utils/pycloudstack/pycloudstack/dut.py:117-126 | two machines with one core each on four CPUs take every other CPU |
| Cmdline.KeyOfField | utils/pycloudstack/pycloudstack/vmparam.py:78-83 | the key is the text before the first equals sign, or the whole field |
| Cmdline.SpacesAre | utils/pycloudstack/pycloudstack/vmparam.py:119-143 | the characters that `strip` removes, one by one |
| Cmdline.IaddAddsOnce | utils/pycloudstack/pycloudstack/vmparam.py:72-76 | with a trimmed nonempty value, += makes all its items present, appends at most once and is idempotent |
| Cmdline.IaddEmpty | utils/pycloudstack/pycloudstack/vmparam.py:72-76 | the empty value is the exception: idempotent exactly where an empty item is already there |
| Cmdline.RemoveStripsOthers | utils/pycloudstack/pycloudstack/vmparam.py:133-143 | for every line, `remove_fields` leaves the nonempty items whose key differs, in order, with the white space at the two outer ends of the list stripped |
| Cmdline.RemoveKeepsOthers | utils/pycloudstack/pycloudstack/vmparam.py:133-143 | so exactly those items are left if and only if the first and last of them do not start and end with other white space than the space |
| Cmdline.SpaceOnlyIsClean | utils/pycloudstack/pycloudstack/vmparam.py:133-143 | a line with space-only white space always meets that condition |
| Cmdline.RemovedKeyIsGone | utils/pycloudstack/pycloudstack/vmparam.py:119-143 | a nonempty key no longer exists if and only if neither the first nor the last item left has it |
| Cmdline.SpaceOnlyKeyIsGone | utils/pycloudstack/pycloudstack/vmparam.py:119-143 | so with space-only white space it never does |
| Cmdline.TabDefeatsRemoval | utils/pycloudstack/pycloudstack/vmparam.py:133-143 | with a tab in the line the removed key can be there again |
| Cmdline.KernelCmdline.Add | utils/pycloudstack/pycloudstack/vmparam.py:72-76 | the command line after the loop of += |
| Cmdline.KernelCmdline.Remove | utils/pycloudstack/pycloudstack/vmparam.py:133-143 | the command line after `remove_fields` |

## Left out

- File, device and ioctl access: file contents, the log file and the host's answer are parameters; writing a file is assumed to succeed.
- The clock: `EfiTime.now` is a parameter of each command.
- SHA-384 itself: only its 48-byte result length is used.
- `full_size` of a variable after an update: only the dump reads it there; its use as the reader's stride is modelled.
- The decoded `name` of a parsed variable: the key is `name_blob`; only whether it decodes is modelled.
- Text.LowerChar: maps A-Z and the Kelvin sign only, because other case mappings never give the ASCII names and GUIDs they are compared with.
- Store.FindVarInfo: requires that the search ends, because the loop never advances; `StoreCodec.SearchEnds` says exactly when it does.
- StoreCodec.WriterFrame: assumes that the records fit, as do the results about passes and runs, because `sync_to_file` does not check it; `StoreCodec.WriterLength` says what happens to the length otherwise.
- VirtXml.VirtXml.Assign: takes real numbers for floats, so infinities and NaN are left out; the tree is a value that methods replace, so aliasing of element objects is not captured.
- VirtXml.VirtXml.Change: takes text for the device and topology properties, because attributes of other types cannot be saved.
- `set_driver`, saving and pretty-printing of domain files.
- The 1.5 device node, report requests and `tdreport.py`, `ccel.py`, `td_report.rs`: fixed-offset slicing of fixed-size structures.
- Hex dumps, logging, argument parsing and the name tables of event types and algorithms.
- Wrappers over libvirt, Kubernetes, Docker, SSH and hardware, shell scripts and deployment files.
