# Verification of the KikiAOSP update, package, camera and storage code

KikiAOSP is an Android 17 image for QEMU. This project models the parts of it whose correctness is decided by
their own code and proves their properties with Dafny 4.11. `dafny verify dfyconfig.toml` checks everything.

| files | what they model |
|---|---|
| `Ota.dfy`, `OtaService.dfy` | the crash-resumable native update service: its steps, and the service object itself |
| `OtaOutcomes.dfy` | what each uninterrupted command comes to, and what a completion proves about the slot that booted |
| `OtaLimits.dfy`, `OtaStranded.dfy` | where its promises end, and a reboot that comes back in the old slot |
| `PayloadOffset.dfy` | the service's walk over local ZIP headers to the stored payload |
| `ZipReader.dfy`, `ZipWriter.dfy` | the strict ZIP/ZIP64 directory reader, and archives written for it |
| `ZipNames.dfy`, `ZipExact.dfy` | the names it allows, and that it accepts exactly what a writer writes |
| `BootImage.dfy`, `Bits.dfy` | the boot header check, its streaming inspection, and the native size readers |
| `BootHeaders.dfy` | the headers and files those accept, against a writer of them |
| `Versions.dfy`, `VersionOrder.dfy` | version strings and their order |
| `SourceLock.dfy` | the worklist check of the pinned manifest and of its projects |
| `Utf8.dfy`, `Utf8Scalars.dfy`, `LicenseParts.dfy` | splitting licence text without cutting a character |
| `CameraWire.dfy`, `CameraRequest.dfy` | the camera port, and an OPEN line as the bridge reads it |
| `CameraTransport.dfy`, `CameraProtocol.dfy` | the shared transport, and the protocol's promises |
| `CameraPixels.dfy`, `CameraConversion.dfy`, `CameraColours.dfy` | the two pixel paths, what they show, and where they agree |
| `StorageMeasure.dfy`, `StorageChecks.dfy`, `StorageAccounting.dfy` | the native measurement, what it requires, the Settings figures, and a reader racing refreshes |
| `ReleaseBuild.dfy`, `ReleasePlan.dfy` | the phases of the release build under crashes and resumes, and each call's effects written out |
| `Bytes.dfy`, `Wrappers.dfy` | byte strings, their numbers, concatenation; option and result types |

Code that changes state step by step is given as methods and classes over the same fields. Each is proved equal
to a function of its inputs or of the old state, and the properties are proved about that function: over every
run for the state machines, over every input for the parsers.

Reads of the network, the clock, randomness and hardware are parameters: a downloaded package, a scripted
bridge, the outcome of each read or write call, a machine's block devices. A digest is a function of the bytes
fed to it; a signature is part of what makes a package `sound`.

## What is false as documented, and exactly when it holds

- The half-full bound on licence parts holds for every text exactly from limit 7 on (`HalfFullIff`).
- The pathname pattern admits licence names of any length, but the reader rejects names over 128 bytes, and
  archives with a ZIP64 end record that no field of the plain record announces. `RoundTrip` says exactly which
  archives are accepted. Written by a library that moves numbers above 2^31 - 1 to ZIP64 fields, as Python's
  does, a package whose directory starts between 2 and 4 GiB is rejected by the reader (`LibraryRoundTrip`).
- The service admits packages of up to 8 GiB, but its header walk finds a stored payload exactly when the
  payload's own local header and those before it give their stored lengths directly, not by the ZIP64 sentinel
  (`OffsetIsExact`, `PayloadIsFoundIff`). With the payload first, as the packaging script writes it through a
  library that reserves the sentinel for files it may see grow past 2^31 - 1 bytes, that ends at 2,045,222,520
  bytes (`PackagedPayloadIff`); from 4 GiB on no payload is ever located (`LargePayloadFails`). The walk over
  records of every kind is `WalkIsByRecords`; a record with a wrong length can lead it into its own data
  (`WrongLengthMisleads`), which `LeadsOut` rules out and conforming files under 4 GiB do (`SmallFilesLeadOut`).
- A pending sequence is 0 or above the accepted one except between the two commits of a completion; a reboot
  there makes the next completion repeat it (`PendingIsNewer`, `CompletionRaises`, `TornCompletion`).
- A restart of the service process alone keeps the service's promises exactly when the engine has no update or
  its installation is recorded; otherwise a resume discards the file the engine has (`RestartIff`). The same
  happens, wherever the worker stands, between the two effects of the callback that reports an installation
  (`SplitCallback`), and between those of the callback that reports a failure (`SplitFailure`).
- The camera's two pixel paths show the same colours for every frame exactly when nothing is scaled; at even
  coordinates they always agree (`PathsAgreeAtEven`, `PathsAgree`, `PathsDiffer`).
- The camera bridge is left inside a line exactly when the calls that write a FRAME move some of its six bytes
  and then fail (or move none when it was inside one before). The stream from the bridge stays aligned all the
  same, and the next release or served request closes the port (`TornFrameIff`, `TornFrameHeals`).
- The frame-size check computes in 64 bits; it means width * height * 3 / 2 exactly while three times the pixel
  count fits (`ExpectedIff`).
- The measured data capacity is exact below 2^52 blocks and wraps from there on (`MeasuredIsSound`).
- Every value a storage reader returns is the total of a refresh that reached ready exactly when no refresh can
  fail between setting its last number and ready; a failure at any earlier point is harmless
  (`ReaderIsRightIff`, with its halves `ReaderIsRight` and `FailedRefreshIsSeen`).
- An installed update that is waiting for a restart is neither completed nor given up after a device reboot that
  comes back in a slot below its sequence without reporting a rollback, and only then: no command, callback or
  restart of the service changes the record until the device reboots again (`StrandedIff`, `StrandedStays`,
  reached by `StrandedIsReached`).

## Model

| member | source | states |
|---|---|---|
| Ota.StepKeepsInv | device/kiki/kikiaosp_test/ota/src/com/kiki/updater/UpdateService.java:22-55 | every command effect, callback, failure, device reboot and slot change keeps the invariant tying engine, queue of callbacks, busy flags, pending record and stage file together |
| Ota.RunKeepsInv | device/kiki/kikiaosp_test/ota/src/com/kiki/updater/UpdateService.java:22-55 | so does every run, in which the accepted sequence never goes down |
| Ota.SubmissionIsAlone | device/kiki/kikiaosp_test/ota/src/com/kiki/updater/UpdateService.java:93-119 | in every run a payload goes only to an idle engine with nothing installed and no outcome on its way; its record is saved and its sequence exceeds the slot's and every accepted one |
| Ota.EngineUpdateIsKept | device/kiki/kikiaosp_test/ota/src/com/kiki/updater/UpdateService.java:22-55 | while the engine applies an update or has it installed, its sequence stays pending, its stage file keeps exactly what was submitted, and the service is busy |
| Ota.NeverDowngrades | device/kiki/kikiaosp_test/ota/src/com/kiki/updater/UpdateService.java:70-117 | no package at or below a sequence accepted at any earlier time is submitted, whatever slot boots since |
| Ota.PendingIsNewer | device/kiki/kikiaosp_test/ota/src/com/kiki/updater/UpdateService.java:33-36 | the pending sequence is 0 or above the accepted one exactly outside the window between a completion's two commits |
| Ota.CompletionRaises | device/kiki/kikiaosp_test/ota/src/com/kiki/updater/UpdateService.java:33-34 | a completion sets the accepted sequence to the pending one, strictly raising it exactly when it does not repeat a torn completion |
| OtaLimits.TornCompletion | device/kiki/kikiaosp_test/ota/src/com/kiki/updater/UpdateService.java:33-34 | a run in which a reboot between the commits leaves pending equal to accepted |
| OtaLimits.RestartIff | device/kiki/kikiaosp_test/ota/src/com/kiki/updater/UpdateService.java:22-55 | in every reachable state, wherever the worker stands, a bare restart of the service process keeps the invariant iff the engine is idle or the installation is recorded; otherwise, unless a rollback is pending, a run discards the engine's file |
| OtaLimits.SplitCallback | device/kiki/kikiaosp_test/ota/src/com/kiki/updater/UpdateService.java:41 | between clearing `installing` and saving `rebootReady` a run discards the engine's file, wherever the worker stands |
| OtaLimits.SplitFailure | device/kiki/kikiaosp_test/ota/src/com/kiki/updater/UpdateService.java:44 | between clearing `installing` and clearing the record after a failure, wherever the worker stands, a resume or an import after clean-up gets an update into the engine, and the rest of the callback discards the file then being applied, with its record |
| OtaLimits.UnguardedResume | device/kiki/kikiaosp_test/ota/src/com/kiki/updater/UpdateService.java:49 | with both busy flags down and an update in the engine, resume submits again and clears the record |
| OtaStranded.StrandedIff | device/kiki/kikiaosp_test/ota/src/com/kiki/updater/UpdateService.java:33-36 | with an installation recorded, a device reboot leaves the record fixed until the next one iff it comes back in a slot below the pending sequence and reports no rollback |
| OtaStranded.StrandedStays | device/kiki/kikiaosp_test/ota/src/com/kiki/updater/UpdateService.java:33-55 | over every run from there without a device reboot, preferences and stage files stay the same and nothing is submitted |
| OtaStranded.StrandedIsReached | device/kiki/kikiaosp_test/ota/src/com/kiki/updater/UpdateService.java:33-55 | a run of one installation and a reboot into the old slot gets there |
| OtaOutcomes.AcceptedMeansBooted | device/kiki/kikiaosp_test/ota/src/com/kiki/updater/UpdateService.java:33-34 | a step that changes the accepted sequence sets it to the pending one, and only where a slot of that sequence or a later one booted and was verified |
| OtaOutcomes.AcceptedWasBooted | device/kiki/kikiaosp_test/ota/src/com/kiki/updater/UpdateService.java:33-34 | over every run, the sequence accepted at its end was pending earlier, in a verified boot of its slot |
| OtaOutcomes.SubmittedWasFound | device/kiki/kikiaosp_test/ota/src/com/kiki/updater/UpdateService.java:93-117 | in every run, what an install submits before the next command is the release the last check found, whatever callbacks, reboots and restarts come between |
| OtaOutcomes.StartOutcome | device/kiki/kikiaosp_test/ota/src/com/kiki/updater/UpdateService.java:33-36 | a start accepts and clears a pending update iff its slot booted and was verified, clears up after a rollback, and changes nothing else |
| OtaOutcomes.ResumeOutcome | device/kiki/kikiaosp_test/ota/src/com/kiki/updater/UpdateService.java:49 | a resume completes such an update; otherwise it applies the pending stage again iff nothing is under way and it is newer |
| OtaOutcomes.ApplyOutcome | device/kiki/kikiaosp_test/ota/src/com/kiki/updater/UpdateService.java:105-119 | from verification to hand-over, refusal and clean-up: the whole state it leaves |
| OtaOutcomes.InstallOutcome | device/kiki/kikiaosp_test/ota/src/com/kiki/updater/UpdateService.java:93-119 | likewise for install and import, from the first check on |
| OtaOutcomes.InstallIff | device/kiki/kikiaosp_test/ota/src/com/kiki/updater/UpdateService.java:93-119 | an install hands the engine a package iff nothing is under way, the copy is whole, the package is sound, is the release found, and is newer than the booted slot and every accepted one, and the engine takes it |
| OtaOutcomes.CheckOutcome | device/kiki/kikiaosp_test/ota/src/com/kiki/updater/UpdateService.java:71-81 | a check leaves the first of the newest confirmed releases as candidate, or none; it fails iff none is newer and one was rejected |
| OtaOutcomes.ConsideredAre | device/kiki/kikiaosp_test/ota/src/com/kiki/updater/UpdateService.java:73-76 | the metadata considered are those of the published releases with both files, in order, each with the last signature of its release, and no others |
| OtaOutcomes.OtherOutcome | device/kiki/kikiaosp_test/ota/src/com/kiki/updater/UpdateService.java:47-55 | reboot, unknown commands, and a check that cannot fetch the list |
| OtaOutcomes.CallbackOutcome | device/kiki/kikiaosp_test/ota/src/com/kiki/updater/UpdateService.java:40-44 | what each report of the engine changes |
| OtaOutcomes.StartForgets | device/kiki/kikiaosp_test/ota/src/com/kiki/updater/UpdateService.java:22-36 | a start of the process keeps preferences and stages and forgets the rest; there is nothing to install until the next check |
| OtaService.FinishIsReached | device/kiki/kikiaosp_test/ota/src/com/kiki/updater/UpdateService.java:47-56 | an uninterrupted command ends, and is one of the runs the results above are about |
| OtaService.CommandsAreRefused | device/kiki/kikiaosp_test/ota/src/com/kiki/updater/UpdateService.java:47-55 | while the engine has an update, no command of any kind changes any part of the state |
| OtaService.BestIsNewest | device/kiki/kikiaosp_test/ota/src/com/kiki/updater/UpdateService.java:76-81 | the check finds metadata iff verified ones are newer; they are the first of those with the highest sequence |
| OtaService.UpdateService.DiscardStage | device/kiki/kikiaosp_test/ota/src/com/kiki/updater/UpdateService.java:23 | removes exactly the named stage |
| OtaService.UpdateService.Clear | device/kiki/kikiaosp_test/ota/src/com/kiki/updater/UpdateService.java:24 | removes the pending stage and clears the three saved fields, whatever the worker is doing |
| OtaService.UpdateService.CurrentSequence | device/kiki/kikiaosp_test/ota/src/com/kiki/updater/UpdateService.java:70 | the larger of the booted slot's sequence, 1 when unset, and the accepted one |
| OtaService.UpdateService.CompleteInstalled | device/kiki/kikiaosp_test/ota/src/com/kiki/updater/UpdateService.java:33-34 | accepts and clears a pending update exactly when its slot booted and was verified |
| OtaService.UpdateService.OnCreate | device/kiki/kikiaosp_test/ota/src/com/kiki/updater/UpdateService.java:35-36 | has exactly the effects of the start-up steps: completion, then clearing up after a rollback |
| OtaService.UpdateService.OnStatusUpdate | device/kiki/kikiaosp_test/ota/src/com/kiki/updater/UpdateService.java:40-43 | is the delivery of that status, wherever the worker stands |
| OtaService.UpdateService.OnPayloadApplicationComplete | device/kiki/kikiaosp_test/ota/src/com/kiki/updater/UpdateService.java:44 | is the delivery of that outcome: a failure clears flag and record, a success changes nothing here |
| OtaService.UpdateService.ScanAssets | device/kiki/kikiaosp_test/ota/src/com/kiki/updater/UpdateService.java:74 | the scan finds the last metadata file and the last signature of a release |
| OtaService.UpdateService.ScanReleases | device/kiki/kikiaosp_test/ota/src/com/kiki/updater/UpdateService.java:73-77 | the loop skips drafts and incomplete releases, keeps the newest verified metadata and counts rejections |
| OtaService.UpdateService.CheckReleases | device/kiki/kikiaosp_test/ota/src/com/kiki/updater/UpdateService.java:71-81 | leaves the newest release as candidate, keeps the old one when the list is unreachable, and fails when nothing is newer and something was rejected |
| OtaService.UpdateService.CreateStage | device/kiki/kikiaosp_test/ota/src/com/kiki/updater/UpdateService.java:92 | a new stage under an unused name, or no change |
| OtaService.UpdateService.Stage | device/kiki/kikiaosp_test/ota/src/com/kiki/updater/UpdateService.java:93-104 | download and import leave what the steps from a new stage leave, including every failure |
| OtaService.UpdateService.Verify | device/kiki/kikiaosp_test/ota/src/com/kiki/updater/UpdateService.java:107-116 | true iff the staged package is sound, is the expected one, and is newer than the current sequence |
| OtaService.UpdateService.Record | device/kiki/kikiaosp_test/ota/src/com/kiki/updater/UpdateService.java:116 | saves sequence and stage together |
| OtaService.UpdateService.Submit | device/kiki/kikiaosp_test/ota/src/com/kiki/updater/UpdateService.java:117 | hands the package to an idle engine; a refusal clears flag and record and fails the command |
| OtaService.UpdateService.Apply | device/kiki/kikiaosp_test/ota/src/com/kiki/updater/UpdateService.java:105-119 | leaves what the verify, record and submit steps leave |
| OtaService.UpdateService.ResumePending | device/kiki/kikiaosp_test/ota/src/com/kiki/updater/UpdateService.java:49 | leaves what the resume steps leave |
| OtaService.UpdateService.CleanUp | device/kiki/kikiaosp_test/ota/src/com/kiki/updater/UpdateService.java:55 | after a failed command discards stage and record, unless an update is under way |
| OtaService.UpdateService.OnStartCommand | device/kiki/kikiaosp_test/ota/src/com/kiki/updater/UpdateService.java:47-56 | every command, including the clean-up of a failed one, leaves exactly the state of its uninterrupted run |
| PayloadOffset.LittleEndianValue | device/kiki/kikiaosp_test/ota/src/com/kiki/updater/UpdateService.java:122 | bytes shifted and joined by or are the little-endian number |
| PayloadOffset.ReadRecord | device/kiki/kikiaosp_test/ota/src/com/kiki/updater/UpdateService.java:121 | one turn of the walk ends it with its result or moves strictly forward to a place with the same result |
| PayloadOffset.FindPayload | device/kiki/kikiaosp_test/ota/src/com/kiki/updater/UpdateService.java:121 | the loop ends for every file and size with the walk's result |
| PayloadOffset.WalkIsByRecords | device/kiki/kikiaosp_test/ota/src/com/kiki/updater/UpdateService.java:121 | over contiguous records of any kind the walk goes from record to record by their local size fields, and leaves them where such a field is not the stored length |
| PayloadOffset.OffsetIsExact | device/kiki/kikiaosp_test/ota/src/com/kiki/updater/UpdateService.java:121 | where no wrong length before the payload leads back into the file: an offset is found iff a payload exists and the first one is reached over admitted records with direct lengths, is admitted and stored, and its local header gives the declared size; it is where that member's data begins, and the range is the data |
| PayloadOffset.PayloadIsFoundIff | device/kiki/kikiaosp_test/ota/src/com/kiki/updater/UpdateService.java:111-121 | with the declared size the payload's own, it is found iff reached, admitted, stored and not behind a sentinel |
| PayloadOffset.SmallFilesLeadOut | device/kiki/kikiaosp_test/ota/src/com/kiki/updater/UpdateService.java:121 | in a file under 4 GiB whose size fields are direct or sentinels no wrong length leads back |
| PayloadOffset.SentinelIsMissed | device/kiki/kikiaosp_test/ota/src/com/kiki/updater/UpdateService.java:121 | a first payload behind a sentinel is never found, whatever its size and whatever follows |
| PayloadOffset.PackagedPayloadIff | scripts/package-native-ab.py:172-173 | an update written payload first is located iff the payload has fewer than 2,045,222,521 bytes (or exactly 2^32 - 1) |
| PayloadOffset.WrongLengthMisleads | device/kiki/kikiaosp_test/ota/src/com/kiki/updater/UpdateService.java:121 | a record that gives length 0 leads the walk to a payload record inside its own data |
| PayloadOffset.HashedIsApplied | device/kiki/kikiaosp_test/ota/src/com/kiki/updater/UpdateService.java:111-121 | with one payload among the records, a range found for its size is the data that was hashed |
| PayloadOffset.LargePayloadFails | device/kiki/kikiaosp_test/ota/src/com/kiki/updater/UpdateService.java:121 | a payload of 4 GiB or more is never located |
| PayloadOffset.PayloadIsText | device/kiki/kikiaosp_test/ota/src/com/kiki/updater/UpdateService.java:121 | the name looked for is `payload.bin` |
| ZipReader.FindZip64Offset | scripts/system-package.py:209-222 | the extra-field loop computes the one declared offset, or fails |
| ZipReader.OffsetMeaning | scripts/system-package.py:209-222 | that offset is read from the only ZIP64 block, past the sizes that precede it, and from nowhere else |
| ZipReader.IsLocal | scripts/system-package.py:223-232 | true iff the local header carries the same name, flags and method and ends before the directory |
| ZipReader.ReadOffset | scripts/system-package.py:206-222 | the local offset, direct or past the clipped sizes in the extra field |
| ZipReader.ReadCentral | scripts/system-package.py:195-222 | one central header, or failure, as specified; every read in bounds |
| ZipReader.OffsetIsDeclared | scripts/system-package.py:206-222 | the local offset is the header's own, or the number right after the clipped sizes in its one ZIP64 block |
| ZipReader.WalkIsSound | scripts/system-package.py:192-236 | a completed walk read entries that follow one another to the directory's end, with fresh names |
| ZipReader.WalkIsComplete | scripts/system-package.py:192-236 | and every such row of entries is walked |
| ZipReader.TilesCover | scripts/system-package.py:192-236 | the bytes of such entries are exactly the directory's bytes |
| ZipReader.AcceptedIsConsistent | scripts/system-package.py:152-236 | acceptance means 1 to 69 entries tiling exactly the bytes from directory offset to directory end, as many distinct names as declared, each entry matching its local header; plain and ZIP64 |
| ZipReader.AcceptedIff | scripts/system-package.py:152-236 | a name set is returned exactly when such a row of entries exists |
| ZipReader.ReadEnd | scripts/system-package.py:170-175 | the end record's checks |
| ZipReader.ReadZip64End | scripts/system-package.py:178-189 | the checks of ZIP64 locator and record, which must stand right before the end record |
| ZipReader.ReadGeometry | scripts/system-package.py:158-191 | count, offset and end of the directory, plain and ZIP64, as specified |
| ZipReader.ReadDirectory | scripts/system-package.py:192-236 | the directory loop computes the walk |
| ZipReader.RawZipNames | scripts/system-package.py:152-236 | the whole reader, for every byte string |
| ZipNames.AllowedIff | scripts/system-package.py:202 | a name is allowed iff it is one of five literal paths or `licenses/`, a stem over a literal alphabet, and `.txt` |
| ZipNames.PartPathIsAllowed | scripts/package-clean-release.py:382-384 | the name of every licence part, whatever its number, is allowed |
| ZipNames.AllowedIsPlain | scripts/system-package.py:202 | no allowed name starts at the root or has two dots in a row |
| ZipExact.GeometryIff | scripts/system-package.py:158-191 | a directory is found iff the file ends with the end record written for it, or with a ZIP64 record, its locator and an end record that announces them |
| ZipExact.OffsetIff | scripts/system-package.py:209-222 | the extra field gives an offset iff its blocks are whole and its only ZIP64 block holds it |
| ZipExact.EntryIff | scripts/system-package.py:195-236 | an entry is read iff both headers of a packable member stand where it says |
| ZipExact.AcceptedExactly | scripts/system-package.py:152-236 | a file is accepted with a set of names iff it ends as written for a directory of as many entries, which tile it and each are written for a member with its local header in place |
| ZipReader.SignaturesAreText | scripts/system-package.py:168-231 | the five signatures are `PK` and the two numbers of each record |
| ZipWriter.RoundTrip | scripts/package-clean-release.py:320-327 | an archive of contiguous local records, directory and end record, with any versions, times, attributes, local fields, clipped sizes and offsets and extra fields, is accepted iff it holds 1 to 69 distinct allowed names of at most 128 bytes in a directory of at most 1 MiB and announces its ZIP64 record if it has one; the names returned are exactly those packed |
| ZipWriter.LibraryHolds | scripts/package-clean-release.py:320-327 | the ZIP64 extra field of a library that clips above 2^31 - 1, both sizes together, holds every offset it clips |
| ZipWriter.LibraryRoundTrip | scripts/package-clean-release.py:320-327 | archives clipped that way are accepted iff names, count and directory size are right and the directory does not start between 2 and 4 GiB |
| ZipWriter.ArchiveWalk | scripts/system-package.py:192-236 | the reader's walk over a written directory returns the packed names iff they are allowed and distinct |
| ZipWriter.WrittenGeometry | scripts/system-package.py:170-191 | the end record of a written archive gives back count, offset and size |
| BootImage.InspectBoot | scripts/system-package.py:275-309 | the chunk loop computes the inspection of the whole file, for every cut into chunks |
| BootImage.InspectStream | scripts/system-package.py:282-309 | the same for any header check; the digest is fed exactly the kernel window and the magic is the ramdisk window |
| BootImage.ChunksDoNotMatter | scripts/system-package.py:282-302 | the result is the same for all cuts whose first chunk covers the inspected bytes |
| BootImage.AcceptedIsExact | scripts/system-package.py:138-149 | acceptance means the declared length, `header` the first 4096 bytes, the kernel digest fed all of file[4096..4096+kernel], and the magic the three bytes at the ramdisk offset |
| BootImage.AcceptedIff | scripts/system-package.py:275-309 | a file is accepted iff its first chunk covers the inspected bytes, its length is as declared and its header, kernel flags and ramdisk magic are right; the native reader measures each accepted file to the byte |
| BootHeaders.HeaderIff | scripts/system-package.py:138-149 | a header is accepted with a layout iff it is magic, the two sizes, free version bytes, 1584, zeros, 4 and zeros, with the sizes in range and the file as long as the padded parts |
| BootHeaders.FileIff | scripts/system-package.py:275-309 | a file is accepted iff it starts with such a header, holds an ARM64 kernel for 4 KiB pages and a gzip ramdisk where the layout puts them, and its first chunk covers what is inspected |
| BootHeaders.NativeIff | device/kiki/kikiaosp_test/ota/storage/StorageImageSizes.h:11-17 | `bootBytes` measures a header iff magic, version, sizes and signature field are right, and then the padded parts |
| BootImage.NativeSizeAgrees | device/kiki/kikiaosp_test/ota/storage/StorageImageSizes.h:11-17 | for a header accepted with length L, `bootBytes` returns L iff L fits the capacity, and fails otherwise |
| BootImage.AlignIsPages | device/kiki/kikiaosp_test/ota/storage/StorageImageSizes.h:13 | alignment by 64-bit mask equals the validator's division |
| BootImage.Le32IsNumber | device/kiki/kikiaosp_test/ota/storage/StorageImageSizes.h:8-10 | shifts and ors give the little-endian number |
| BootImage.ErofsIsBlocks | device/kiki/kikiaosp_test/ota/storage/StorageImageSizes.h:18-23 | `erofsBytes` accepts iff magic, block size and feature bit 7 are right and the blocks fit; the size is whole blocks |
| Versions.ParseIff | scripts/system-package.py:47-59 | a string parses to a version iff the version is valid and prints as that string |
| Versions.ParseIsInjective | scripts/system-package.py:47-59 | no two strings parse alike |
| Versions.TextIdentifierIff | scripts/system-package.py:47-59 | text identifiers are those over a literal alphabet with some character that is no digit |
| VersionOrder.LessIsPrecedence | scripts/system-package.py:77 | the tuple comparison is the precedence of section 11 of Semantic Versioning 2.0.0 |
| VersionOrder.LessIsTotal | scripts/system-package.py:77 | it is a strict total order on valid versions |
| VersionOrder.LexIsFirstDifference | scripts/system-package.py:59-77 | sequence comparison is decided by the first difference, else by length |
| SourceLock.CheckTree | scripts/system-package.py:119-124 | the worklist loop ends and accepts iff every node passes its checks |
| SourceLock.TreeOkMeans | scripts/system-package.py:119-124 | that is: at every place of the tree, depth below 32 and projects directly below the root |
| SourceLock.NoHiddenProject | scripts/system-package.py:116-124 | the counted and checked projects are all projects of an accepted tree |
| SourceLock.CheckProjects | scripts/system-package.py:125-132 | accepts iff all paths are safe and pairwise distinct and all revisions are full commits |
| SourceLock.SafePathsAreInside | scripts/system-package.py:127-129 | a safe path resolves strictly inside the checkout, and different safe paths to different directories |
| SourceLock.ValidateManifest | scripts/system-package.py:115-132 | the checks together |
| SourceLock.ManifestIff | scripts/system-package.py:115-132 | a manifest is accepted iff its tree is shallow, and its projects are as many as said, each with an ordinary path (its own, or else its name) and forty hexadecimal digits, no two at one path |
| LicenseParts.FindCut | scripts/package-clean-release.py:300-312 | the back-off loop finds the specified cut |
| LicenseParts.Split | scripts/package-clean-release.py:294-317 | the whole loop, with its three errors |
| LicenseParts.CutIsBoundary | scripts/package-clean-release.py:300-312 | each cut is positive, within the limit and between characters; it is after the last newline of the second half, or the last boundary there is |
| LicenseParts.CutIsLatest | scripts/package-clean-release.py:300-312 | a text over the limit is cut after the last newline at or after half the limit, or else at the last boundary within it |
| LicenseParts.PartsOfText | scripts/package-clean-release.py:294-317 | for valid text and limit at least 4: non-empty valid parts of at most `limit` bytes that concatenate to the text, over half full from limit 7 on |
| LicenseParts.PartsAreFew | scripts/package-clean-release.py:294-317 | so their number is bounded |
| LicenseParts.ShortLimitsFail | scripts/package-clean-release.py:294-317 | for limits 4 to 6 some text has a part at or below half the limit |
| LicenseParts.HalfFullIff | scripts/package-clean-release.py:294-317 | the half-full bound holds for every text iff the limit is at least 7 |
| Utf8.NearBoundary | scripts/package-clean-release.py:305-312 | among any four consecutive positions of valid text one is a boundary, so the back-off ends within three steps |
| Utf8.AsciiBoundary | scripts/package-clean-release.py:302-304 | the place after a newline is a boundary |
| Utf8.SuffixDecodes | scripts/package-clean-release.py:313-314 | what follows a valid beginning of valid text is valid |
| Utf8Scalars.DecodesIff | scripts/package-clean-release.py:305-312 | bytes decode iff they are the encoding of code points that are no surrogates |
| CameraWire.HeaderRoundTrip | device/kiki/kikiaosp_test/camera/SurfaceCamera.cpp:202-235 | decoding a frame header inverts its big-endian encoding |
| CameraWire.BytesRoundTrip | device/kiki/kikiaosp_test/camera/SurfaceCamera.cpp:220-235 | and encoding a decoded header gives its bytes back |
| CameraWire.ReadTakes | device/kiki/kikiaosp_test/camera/SurfaceCamera.cpp:72-84 | for every split, interruption and failure a read takes a prefix of what was sent; a successful one exactly the bytes asked for |
| CameraWire.LineTakes | device/kiki/kikiaosp_test/camera/SurfaceCamera.cpp:90-102 | a line read whole is the text sent without carriage returns, consumed with its newline |
| CameraWire.WriteDelivers | device/kiki/kikiaosp_test/camera/SurfaceCamera.cpp:58-70 | a write delivers exactly the bytes moved before the first failure, and succeeds iff those are all |
| CameraWire.LineDelivers | device/kiki/kikiaosp_test/camera/SurfaceCamera.cpp:86-88 | a line arrives whole as one line, or as the bytes moved before a failure |
| CameraWire.ReadServed | device/kiki/kikiaosp_test/camera/SurfaceCamera.cpp:72-84 | a read with enough bytes and live calls is served however short each call is |
| CameraWire.StrippedHasNone | device/kiki/kikiaosp_test/camera/SurfaceCamera.cpp:90-102 | a line as the client sees it has no carriage return, and is the text itself when that has none |
| CameraWire.StrippedJoins | device/kiki/kikiaosp_test/camera/SurfaceCamera.cpp:90-102 | dropping them is done byte by byte |
| CameraWire.WordsAreText | device/kiki/kikiaosp_test/camera/SurfaceCamera.cpp:161-277 | the words of the protocol are `OPEN`, `CLOSE`, `CLOSED`, `FRAME` and `KCF1` |
| CameraTransport.SurfaceCameraTransport.WriteFully | device/kiki/kikiaosp_test/camera/SurfaceCamera.cpp:58-70 | the cursor loop has the specified effect on the port |
| CameraTransport.SurfaceCameraTransport.ReadFully | device/kiki/kikiaosp_test/camera/SurfaceCamera.cpp:72-84 | likewise |
| CameraTransport.SurfaceCameraTransport.ReadLineFully | device/kiki/kikiaosp_test/camera/SurfaceCamera.cpp:90-102 | likewise, for at most 512 characters |
| CameraTransport.SurfaceCameraTransport.ResetLocked | device/kiki/kikiaosp_test/camera/SurfaceCamera.cpp:291-298 | closes the port and forgets owner and stream |
| CameraTransport.SurfaceCameraTransport.CloseCameraLocked | device/kiki/kikiaosp_test/camera/SurfaceCamera.cpp:269-289 | whole new state: closed by acknowledgement, or reset |
| CameraTransport.SurfaceCameraTransport.AcquireFor | device/kiki/kikiaosp_test/camera/SurfaceCamera.cpp:149-189 | whole new state of an acquire, every failure included |
| CameraTransport.SurfaceCameraTransport.ReleaseFor | device/kiki/kikiaosp_test/camera/SurfaceCamera.cpp:191-195 | whole new state of a release |
| CameraTransport.SurfaceCameraTransport.CaptureFor | device/kiki/kikiaosp_test/camera/SurfaceCamera.cpp:197-252 | whole new state and picture of a capture |
| CameraProtocol.CloseKeepsInv | device/kiki/kikiaosp_test/camera/SurfaceCamera.cpp:269-289 | a camera is given up only by an acknowledged CLOSE or by closing the port; none is open after |
| CameraProtocol.AcquireKeepsInv | device/kiki/kikiaosp_test/camera/SurfaceCamera.cpp:149-189 | success makes the caller the owner of the requested stream; failure leaves the port closed and no camera open |
| CameraProtocol.CaptureKeepsInv | device/kiki/kikiaosp_test/camera/SurfaceCamera.cpp:197-252 | a capture leaves nothing unread, torn writes included |
| CameraProtocol.AtMostOneCamera | device/kiki/kikiaosp_test/camera/SurfaceCamera.cpp:142-307 | over every sequence of calls, split, failure and bridge behaviour: at most one camera open, no OPEN sent while one is, and the stream at a reply boundary or the port closed |
| CameraProtocol.FormerOwnersAreIgnored | device/kiki/kikiaosp_test/camera/SurfaceCamera.cpp:149-200 | after a hand-over no number of late releases and captures by anyone else changes anything; the new owner keeps the stream it asked for |
| CameraProtocol.OpenLineAsks | device/kiki/kikiaosp_test/camera/SurfaceCamera.cpp:161-162 | read at its spaces, an OPEN line asks for exactly the facing, width and height it was made for |
| CameraProtocol.OpenCameraIsTheOwners | device/kiki/kikiaosp_test/camera/SurfaceCamera.cpp:142-307 | over every sequence of calls an open camera was opened for its owner's facing, width and height |
| CameraProtocol.OpenedAsAsked | device/kiki/kikiaosp_test/camera/SurfaceCamera.cpp:161-188 | after a successful OPEN that the bridge obeyed, the one open camera is the one asked for |
| CameraProtocol.QuietCalls | device/kiki/kikiaosp_test/camera/SurfaceCamera.cpp:149-195 | a release leaves its owner nothing; an acquire of the stream already held, or without a port, sends nothing |
| CameraProtocol.OpenCosts | device/kiki/kikiaosp_test/camera/SurfaceCamera.cpp:161-170 | an OPEN line that gets out costs exactly one reply, whatever becomes of it |
| CameraProtocol.CloseCosts | device/kiki/kikiaosp_test/camera/SurfaceCamera.cpp:275-281 | so does a CLOSE |
| CameraProtocol.CaptureCosts | device/kiki/kikiaosp_test/camera/SurfaceCamera.cpp:199-247 | and a FRAME |
| CameraProtocol.CaptureIsExact | device/kiki/kikiaosp_test/camera/SurfaceCamera.cpp:197-252 | a successful capture is the frame the bridge sent, in the owner's dimensions and with exactly the expected bytes |
| CameraProtocol.CaptureServed | device/kiki/kikiaosp_test/camera/SurfaceCamera.cpp:197-252 | a served capture succeeds iff the frame is acceptable, whatever the split; otherwise the port is closed |
| CameraProtocol.OpenServed | device/kiki/kikiaosp_test/camera/SurfaceCamera.cpp:161-188 | a served OPEN succeeds iff the bridge announces the requested stream |
| CameraProtocol.CloseServed | device/kiki/kikiaosp_test/camera/SurfaceCamera.cpp:275-288 | a served CLOSE succeeds iff the answer is CLOSED |
| CameraProtocol.ExpectedIff | device/kiki/kikiaosp_test/camera/SurfaceCamera.cpp:236-240 | the 64-bit payload size is width*height*3/2 iff width*height*3 fits 64 bits |
| CameraProtocol.CaptureFeedsPixels | device/kiki/kikiaosp_test/camera/SurfaceCamera.cpp:236-247 | a capture of an even-sized stream is a frame the pixel paths can read |
| CameraProtocol.TornFrameIff | device/kiki/kikiaosp_test/camera/SurfaceCamera.cpp:199-200 | after a capture the port is open with an unfinished line iff the write calls moved some but not all of the six bytes before failing, or none behind an unfinished line; then only that line grew |
| CameraProtocol.TornFrame | device/kiki/kikiaosp_test/camera/SurfaceCamera.cpp:199-200 | one short write and a failure do it |
| CameraProtocol.TornFrameHeals | device/kiki/kikiaosp_test/camera/SurfaceCamera.cpp:197-252 | giving the camera up, or a capture whose line gets out, then closes the port |
| CameraPixels.CopyToYuv | device/kiki/kikiaosp_test/camera/SurfaceCamera.cpp:309-343 | for any layout without shared addresses every sample gets its source byte and no other byte of memory changes; all reads and writes in bounds |
| CameraPixels.CopyLuma | device/kiki/kikiaosp_test/camera/SurfaceCamera.cpp:314-321 | the luma loops give every luma sample its source byte and change nothing else |
| CameraPixels.CopyChroma | device/kiki/kikiaosp_test/camera/SurfaceCamera.cpp:322-341 | the same for the chroma loops; both bytes of a pair come from one source pair |
| CameraPixels.SiteOfAddress | device/kiki/kikiaosp_test/camera/SurfaceCamera.cpp:354-362 | in the packed layout every sample has its own byte |
| CameraPixels.AddressOfSite | device/kiki/kikiaosp_test/camera/SurfaceCamera.cpp:354-362 | and every byte is some sample's, so each is assigned exactly once |
| CameraPixels.CopyToScaledNv12 | device/kiki/kikiaosp_test/camera/SurfaceCamera.cpp:345-364 | the packed image is the specified one; refused iff a size is zero, odd or enlarged |
| CameraPixels.ScaledIsIdentity | device/kiki/kikiaosp_test/camera/SurfaceCamera.cpp:309-364 | at equal sizes the packed image is the frame |
| CameraPixels.MaskedIndex | device/kiki/kikiaosp_test/camera/SurfaceCamera.cpp:385-388 | the 32-bit chroma index neither wraps nor leaves the sample's pair |
| CameraPixels.Colour | device/kiki/kikiaosp_test/camera/SurfaceCamera.cpp:380-393 | one pixel's colour is converted from its samples |
| CameraPixels.CopyToRgba | device/kiki/kikiaosp_test/camera/SurfaceCamera.cpp:370-397 | every row shows its converted colours, no padding byte changes, and rows that would overlap are refused |
| CameraPixels.PixelIsShown | device/kiki/kikiaosp_test/camera/SurfaceCamera.cpp:376-395 | rows that show their colours show at each pixel the colour converted from its samples |
| CameraConversion.ConversionIsNear | device/kiki/kikiaosp_test/camera/SurfaceCamera.cpp:380-393 | every channel is within one step of the real-valued conversion of video-range colours, and alpha is 255 |
| CameraConversion.NeutralIsGrey | device/kiki/kikiaosp_test/camera/SurfaceCamera.cpp:380-393 | neutral chroma gives greys, black up to luma 16, white from 235, lighter for more luma |
| CameraConversion.ChannelsFollowChroma | device/kiki/kikiaosp_test/camera/SurfaceCamera.cpp:380-393 | red follows Cr alone, blue Cb alone, green falls with either |
| CameraConversion.PixelMeans | device/kiki/kikiaosp_test/camera/SurfaceCamera.cpp:376-395 | each pixel of a finished copy shows the luma sample that stands for it with the chroma pair of that sample's block, so converted |
| CameraConversion.PaddingMeans | device/kiki/kikiaosp_test/camera/SurfaceCamera.cpp:370-397 | bytes behind a row's last pixel, and behind the last row, are as they were |
| CameraConversion.LumaMeans | device/kiki/kikiaosp_test/camera/SurfaceCamera.cpp:314-321 | in filled planes a luma byte is the sample that stands for its place |
| CameraConversion.PairMeans | device/kiki/kikiaosp_test/camera/SurfaceCamera.cpp:322-341 | and a chroma pair is that of the sample standing for its even coordinates, U before V |
| CameraConversion.PackedIsFilled | device/kiki/kikiaosp_test/camera/SurfaceCamera.cpp:345-364 | the packed image is filled: luma first, then the pairs |
| CameraColours.PackedColourIs | device/kiki/kikiaosp_test/camera/SurfaceCamera.cpp:309-364 | the packed image's colour at a pixel comes from the pair at the even coordinates at or before it |
| CameraColours.PathsAgreeAtEven | device/kiki/kikiaosp_test/camera/SurfaceCamera.cpp:309-397 | at even coordinates RGBA is the converted packed image, for every permitted size |
| CameraColours.PathsAgree | device/kiki/kikiaosp_test/camera/SurfaceCamera.cpp:309-397 | at equal sizes, at every coordinate |
| CameraColours.PathsDiffer | device/kiki/kikiaosp_test/camera/SurfaceCamera.cpp:309-397 | at any smaller size some frame shows different colours at some coordinate |
| StorageMeasure.MeasureImages | device/kiki/kikiaosp_test/ota/storage/kiki_storage_stats.cpp:49-57 | the nested loops add up the six images in 64 bits, or fail when one cannot be measured |
| StorageMeasure.Measure | device/kiki/kikiaosp_test/ota/storage/kiki_storage_stats.cpp:40-58 | the measurement before publication, with every refusal |
| StorageMeasure.TotalIsTheSum | device/kiki/kikiaosp_test/ota/storage/kiki_storage_stats.cpp:49-57 | the total is the sum of all six sizes and exists iff all six can be measured |
| StorageMeasure.MeasuredIsSound | device/kiki/kikiaosp_test/ota/storage/kiki_storage_stats.cpp:42-58 | a measurement has positive data and images that fit the disk together; its capacity is exact iff it did not wrap |
| StorageChecks.MeasuredIff | device/kiki/kikiaosp_test/ota/storage/kiki_storage_stats.cpp:40-58 | a machine is measured iff userdata is mounted, F2FS, of 4 KiB blocks and on a large enough disk, and all six partitions are on that disk, of their fixed sizes, with images headed as the readers require; then disk, data and images are these |
| StorageAccounting.Conservation | overlays/frameworks/base/packages/SettingsLib/src/com/android/settingslib/deviceinfo/KikiStorageAccounting.java:11-49 | once the guard passes: used + reserved + writable is the total, each in [0, total] and without 64-bit overflow, for 0 <= usable <= free <= data; reserved is refused iff the sizes are not so ordered |
| StorageAccounting.GuardIff | overlays/frameworks/base/packages/SettingsLib/src/com/android/settingslib/deviceinfo/KikiStorageAccounting.java:11-21 | the guard passes iff the published numbers are those of this disk and mount and fit it together |
| StorageAccounting.Fallbacks | overlays/frameworks/base/packages/SettingsLib/src/com/android/settingslib/deviceinfo/KikiStorageAccounting.java:23-49 | what each figure is where the guard fails or the sizes are out of order |
| StorageAccounting.ReaderIsGuard | overlays/frameworks/base/packages/SettingsLib/src/com/android/settingslib/deviceinfo/KikiStorageAccounting.java:11-21 | a reader that no refresh disturbs returns what the guard lets through |
| StorageAccounting.ReadyTwice | overlays/frameworks/base/packages/SettingsLib/src/com/android/settingslib/deviceinfo/KikiStorageAccounting.java:11-21 | in every run a value is returned only by a reader that found the status ready before its first number and after its last |
| StorageAccounting.FailedMeasure | device/kiki/kikiaosp_test/ota/storage/kiki_storage_stats.cpp:59-63 | a refresh that cannot measure publishes nothing and lets another start |
| StorageAccounting.RunInOrder | device/kiki/kikiaosp_test/ota/storage/kiki_storage_stats.cpp:59-63 | in every run the numbers are set in order, and the status reads ready only beside all numbers of the refresh that completed last |
| StorageMeasure.SampleIsMeasured | device/kiki/kikiaosp_test/ota/storage/kiki_storage_stats.cpp:40-58 | concrete headers and devices that are measured, with totals that differ |
| StorageAccounting.PublishedPasses | overlays/frameworks/base/packages/SettingsLib/src/com/android/settingslib/deviceinfo/KikiStorageAccounting.java:11-21 | a sound measurement, once published, passes the guard iff disk and mount are those measured |
| StorageAccounting.StepKeepsInv | device/kiki/kikiaosp_test/ota/storage/kiki_storage_stats.cpp:38-63 | every step of publication, failure and reading keeps the invariant about where the visible number comes from |
| StorageAccounting.ReaderIsRightIff | overlays/frameworks/base/packages/SettingsLib/src/com/android/settingslib/deviceinfo/KikiStorageAccounting.java:11-21 | all values readers return in all runs are totals of refreshes that reached ready iff no refresh can fail after its last number |
| StorageAccounting.ReaderIsRight | overlays/frameworks/base/packages/SettingsLib/src/com/android/settingslib/deviceinfo/KikiStorageAccounting.java:11-21 | where no refresh fails at that stage, whatever fails earlier, a returned image value is the sound total of a refresh that reached ready before the second check |
| StorageAccounting.ReaderIsBounded | overlays/frameworks/base/packages/SettingsLib/src/com/android/settingslib/deviceinfo/KikiStorageAccounting.java:11-21 | whatever fails, it is a sound total that a refresh published among its three numbers, and fits the disk beside the data |
| StorageAccounting.FailedRefreshIsSeen | device/kiki/kikiaosp_test/ota/storage/kiki_storage_stats.cpp:59-63 | wherever failures include that stage, a run in which the value of a refresh that never reached ready is returned |
| ReleaseBuild.Builder.PrepareSources | scripts/build-clean-release.py:152-166 | the straight-line stages up to the kernel have exactly the specified effects, however early the process dies |
| ReleaseBuild.Builder.BuildInputs | scripts/build-clean-release.py:168-207 | likewise for the remaining stages |
| ReleaseBuild.Builder.RunMain | scripts/build-clean-release.py:110-207 | likewise for a whole call, with its refusals |
| ReleaseBuild.HistoryKeepsInv | scripts/build-clean-release.py:110-207 | every history of calls, crashes and failed steps keeps the invariant and only moves forward |
| ReleaseBuild.IntegrationBeginsOnce | scripts/build-clean-release.py:125-155 | the integration is begun at most once in any history |
| ReleaseBuild.NeverBackwards | scripts/build-clean-release.py:114-150 | the phase never moves backwards and the frozen identity never changes |
| ReleaseBuild.FinishedMeansDone | scripts/build-clean-release.py:152-207 | the finished phase means integration, kernel, platform, boot payload and checks ended in that order |
| ReleaseBuild.InterruptedStays | scripts/build-clean-release.py:125-129 | a record left in the integration phase is never touched again |
| ReleaseBuild.ResumeFinishes | scripts/build-clean-release.py:110-207 | any other record is finished by one resume that lives long enough |
| ReleasePlan.CallIsPlan | scripts/build-clean-release.py:110-207 | the effects of every call are the plan of the phase its record is in, written out in order, up to where the process dies |
| ReleasePlan.RefusedIff | scripts/build-clean-release.py:110-150 | a call changes something iff it is admitted and starts a record where none was begun, or resumes one of the same recipe with its worktrees intact and no integration interrupted |
| ReleasePlan.AuditsComeFirst | scripts/build-clean-release.py:154-162 | nothing is built before both audits of the same call have ended |
| ReleasePlan.FinishedByPipeline | scripts/build-clean-release.py:168-173 | a resume that lives long enough records the commit of the pipeline that ran it and keeps the identity |

## Left out

- Engine callbacks are atomic steps delivered in order, and each `commit()` is atomic; `SplitCallback` and
  `TornCompletion` show what happens at a finer grain.
- A rebound engine's repeated status report: the callbacks a dead process missed are gone, as `RestartIff` assumes.
- OtaService.UpdateService.Verify: the entry names, signature, hashes, properties and payload offset of a staged
  package are its one flag `sound`; `HashedIsApplied` is about the offset.
- OtaService.UpdateService.Apply: rests on that flag.
- OtaService.UpdateService.Stage: the copy loops, size limits and URL checks of a download or import are the one
  flag `complete`.
- OtaService.UpdateService.CheckReleases: fetching and authenticating one release's files is a parameter, and a list
  with a malformed entry fails like one that cannot be fetched.
- OtaService.UpdateService.DiscardStage: a stage is an identifier, so the guard on its canonical path and directory
  name, which only keeps other files safe, does not appear.
- `state()` messages, notifications, the importer's inbox path pattern beyond accepted or not, and `onDestroy`.
- Inflate, CRC, archive metadata that the library checks after the raw names, JSON schemas, the manifest's role
  and size table, and case folding of names, which the allow-list makes lower case anyway.
- The library behind `write_zip` and the packaging script is not part of the repository. `LIBRARY_LIMIT`,
  `LibraryWrites`, `LibraryStyle` and `LibrarySentinel` state how it clips; `RoundTrip` and `OffsetIsExact` hold
  for every writer.
- Pinned digests and the schema part of the source lock; an XML document is its element tree.
- The camera bridge is not part of the repository. It answers each line once, with text that is no frame or
  with a frame as long as its header says, answers CLOSED only to a CLOSE it obeys, and closes its cameras when
  the port closes; beyond that it is arbitrary.
- A read with nothing to come fails in the model where the program would block.
- CameraTransport.SurfaceCameraTransport.AcquireFor: `sscanf` on the READY line is a parameter, and the port's
  discovery under /sys is a flag of the call.
- Gralloc locks, fences, JPEG compression and the metadata of `processCaptureRequest`; memory planes are offsets
  into one array, so planes in separate allocations are covered only as parts of one address space.
- Opening, stat and ioctl calls of the storage tool are parts of a machine description; the printed JSON line.
- The data directory's sizes stay fixed while one Settings figure is computed.
- Two release builds at once; the property checks inside the last stage; the contents of the stamp beyond phase,
  frozen fields and pipeline commit. The stamp is written atomically.
- DRM and SurfaceFlinger tools, AOSP patches, and the scripts that drive git, Nix, repo and the AOSP build.
