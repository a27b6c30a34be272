# Stage3 release pipeline of the Gentoo installer, in Dafny

This project models the decision-making of `gentoo_install.py`. That is the
part of the installer that finds the newest Gentoo stage3 release on the
`autobuilds` mirror, picks the hardened-openrc archive and its detached
signature, verifies the signature, and hands the archive on for extraction.
It also models how `setup_partitions` assigns the boot and root partitions
from the output of `lsblk --json`. Once their I/O is removed, all of these are
pure functions over strings and sequences.

Modules, leaf first:

- `Results`: one `Error` constructor per exception the pipeline can raise,
  and a `Result` type, so that every failing step is a value.
- `Strings`: Python's `startswith`, `endswith` and `<` on `str`
  (lexicographic by code point), with the order facts the other modules need.
- `Timestamp`: release-folder names. They use the layout `%Y%m%dT%H%M%SZ`,
  the basic-format complete date-and-time representation of ISO 8601:2004,
  section 4.3.2. A `DateTime` holds the six fields with `datetime`'s range
  checks. `Parse` models `strptime` on the canonical 16-character form and
  `Format` models `strftime`. Chronological order is field-by-field
  comparison.
- `Latest`: `find_latest_timestamp`, that is, parse all names, take the
  maximum and write it back.
- `Anchors`: the two `HTMLParser` listeners. `Select` is one generic filter
  over the `href` values of `a` tags, parameterised by a rule. The rule
  decides, per value, whether to raise, to ignore it, or to emit a link.
  `FolderRule` removes one trailing `/` and keeps valid timestamps.
  `FileRule` keeps `stage3-amd64-hardened-openrc…` names that end in
  `.tar.xz` or `.asc`.
- `Signature`: `verify_stage3_file`, which picks the first `.asc` entry and
  names the archive by dropping four characters. gpg and `rm` are pass/fail
  oracles.
- `Fetch`: `fetch_web_page`. `Decide` is the decision on one response.
  `FetchPage` follows redirects for at most `fuel` requests. The network is
  an oracle from URL to response, and `urljoin` (RFC 3986, section 5.2) is an
  opaque function.
- `Partitions`: lines 65-76, the boot/root choice over the block-device list.
- `Pipeline`: `time_sync_and_stage3_download` up to the `mv` of the verified
  archive, with every collaborator as a field of `Env`.
- `Examples`: concrete scenarios. They cover a folder listing, a file
  listing, the signature-to-archive name, redirect chains, and the partition
  quirk.

Behaviours of the source that the model keeps on purpose:

- An `href` without a value (`None`) makes both listeners raise. So does an
  empty `href` in folder mode, through `href[-1]`. Either one aborts the whole
  page.
- A 301/302 whose `Location` header is present but empty is not followed,
  because `if redirect_url:` treats `""` as missing. The response then fails
  as a non-200 status.
- lsblk reports sizes as strings, and the source compares them with `>`. So
  the child whose size string sorts higher becomes boot, and ties go to the
  second child. With the layout parted creates (about "1.9G" and "463.8G"), the root
  partition is chosen as boot. `Examples.PartitionRoleExamples` shows this.
- Every block device is scanned, not only the disk just partitioned, and the
  last device with children wins. A device with fewer than two children
  raises `IndexError`.
- The download URL is `url + '/' + latest + '/' + file`. It is built from the
  root page's final URL, not from the folder page's final URL.

Behaviours of the code worth stating plainly:

- `find_latest_timestamp` returns `strftime` of the maximum. For canonical
  names that string is one of the inputs (`Latest.FindLatest` proves it).
  The model accepts only canonical names (see `Timestamp.Parse` under
  "## Left out"). For the other names `strptime` accepts, such as
  `2024601T120000Z` or `20240601t120000z`, the result is the canonical
  spelling, which is not one of the inputs, so line 234 joins a folder name
  the index never listed.
- `fetch_web_page` has no hop limit: it calls itself once per followed
  redirect. The `fuel` parameter stands for Python's recursion limit, and
  running out of it is `TooManyRedirects`.
- `verify_stage3_file` verifies only the first `.asc` entry. Later entries
  are ignored.

## Model

| member | source | states |
|---|---|---|
| `Timestamp.Parse` | gentoo_install.py:136-138 | a parse succeeds only on the canonical shape (8 digits, `T`, 6 digits, `Z`) and yields an instant that passes `datetime`'s range checks |
| `Timestamp.DaysInMonth` | gentoo_install.py:136-138 | month lengths `strptime`'s `datetime` enforces: 28 to 31 days, and 29 exactly for February of a leap year |
| `Timestamp.Format` | gentoo_install.py:166-167 | `strftime("%Y%m%dT%H%M%SZ")` writes 16 characters with `T` at position 8 and `Z` at position 15 |
| `Timestamp.IsValidIffFormatted` | gentoo_install.py:141-146 | `is_valid_timestamp`, modelled by `Timestamp.IsValid`, accepts a string exactly when it is the written form of some valid instant; it never fails, it says false |
| `Timestamp.ParseFormat` | gentoo_install.py:136-138 | parsing the written form of a valid instant gives back that instant |
| `Timestamp.FormatParse` | gentoo_install.py:163-167 | writing back a parsed name reproduces the name: format(parse(s)) == s |
| `Timestamp.BeforeIsStrictTotalOrder` | gentoo_install.py:163 | the chronological comparison `max` uses is irreflexive, asymmetric, transitive and total |
| `Timestamp.BeforeIsStringOrder` | gentoo_install.py:160-167 | for valid instants, being earlier is the same as having the lexicographically smaller written form |
| `Timestamp.StringOrderIsChronological` | gentoo_install.py:160-167 | two valid names compare as strings exactly as their parsed instants compare in time |
| `Latest.ParseAll` | gentoo_install.py:160 | the comprehension succeeds iff every name is valid, pairing each name with its parsed value; otherwise it fails naming the first invalid one |
| `Latest.Max` | gentoo_install.py:163 | `max` returns one of the instants, and no instant is later than it |
| `Latest.FindLatest` | gentoo_install.py:149-167 | succeeds iff the list is non-empty and all names are valid; the result is one of the names, and no name is chronologically later; empty input fails with the `max` error, an invalid name with its own error |
| `Latest.LatestIsStringMaximum` | gentoo_install.py:149-167 | no input name sorts after the chosen one as a string |
| `Anchors.AttrHrefs` | gentoo_install.py:177-179 | the values collected from one tag are exactly the values of its `href` attributes |
| `Anchors.Hrefs` | gentoo_install.py:175-179 | the values the listeners see are exactly the `href` values of `a` tags; other tags contribute nothing |
| `Anchors.HrefsAppend` | gentoo_install.py:175-179 | `href` values come out in document order: a page split in two yields the first part's values, then the second's |
| `Anchors.Select` | gentoo_install.py:175-198 | a listener's successful output has at most one link per `href` value |
| `Anchors.SelectOutcome` | gentoo_install.py:175-198 | a listener finishes iff its rule raises on no value; otherwise the error is that of the first value it raises on |
| `Anchors.SelectMembers` | gentoo_install.py:175-198 | a finished listener holds exactly the links its rule emits for some value |
| `Anchors.SelectAppend` | gentoo_install.py:175-198 | the links of concatenated values are the links of each part, concatenated: order and duplicates are kept |
| `Anchors.ListenerAppend` | gentoo_install.py:175-198 | feeding a page in two pieces collects the first piece's links followed by the second's |
| `Anchors.StripSlash` | gentoo_install.py:180-181 | exactly one trailing `/` is removed; a name without one is unchanged |
| `Anchors.FolderRule` | gentoo_install.py:179-183 | a missing value or an empty `href` raises; otherwise the value with one trailing `/` removed is emitted iff it is a valid timestamp |
| `Anchors.FolderLinks` | gentoo_install.py:170-183 | the folder listener only ever fails on a missing or empty `href` |
| `Anchors.FolderLinksOutcome` | gentoo_install.py:179-181 | the folder listener finishes iff no `href` is missing or empty |
| `Anchors.FolderMember` | gentoo_install.py:180-183 | a name is collected iff it is a valid timestamp that some non-empty `href` becomes after one trailing `/` is removed |
| `Anchors.FolderLinksSpec` | gentoo_install.py:175-183 | the folder listener finishes iff no `href` is missing or empty, and then holds exactly the valid timestamps left after stripping one trailing `/` from some `href` |
| `Anchors.FileRule` | gentoo_install.py:195-198 | a missing value raises; otherwise the value is emitted verbatim iff it has the stage3 prefix and the archive or signature suffix |
| `Anchors.FileLinks` | gentoo_install.py:186-198 | the file listener only ever fails on an `href` without a value |
| `Anchors.FileLinksSpec` | gentoo_install.py:191-198 | the file listener finishes iff every `href` has a value, and then holds exactly the `href` values that are stage3 names |
| `Signature.ArchiveName` | gentoo_install.py:218 | the archive name plus `.asc` is the signature name |
| `Signature.FirstSignature` | gentoo_install.py:214-215 | finds the first entry ending in `.asc`, or reports that there is none |
| `Signature.VerifyStage3` | gentoo_install.py:213-219 | no `.asc` entry iff the no-signature error; success names the archive of the first `.asc` entry, which gpg and `rm` both accepted; a gpg rejection of that entry fails naming it; an `rm` failure comes only after gpg passed |
| `Signature.VerifyIgnoresLaterEntries` | gentoo_install.py:214-218 | entries after the first signature do not affect the outcome |
| `Signature.RejectedSignatureYieldsNothing` | gentoo_install.py:216-218 | when gpg rejects the chosen signature the result is that verification error, never an archive name |
| `Fetch.Decide` | gentoo_install.py:121-130 | a response is followed iff it is 301/302 with a non-empty `Location`, towards `urljoin(current, location)`; it is delivered iff it is a 200; otherwise it fails with its status and reason |
| `Fetch.FetchPage` | gentoo_install.py:107-133 | a returned page carries the body of a 200 response to the URL it names; failures are a non-200 status or running out of requests |
| `Fetch.FetchPageOk` | gentoo_install.py:121-133 | a fetch returns (body, url) iff fewer than `fuel` followed redirects lead to `url`, whose response is a 200 with that body |
| `Fetch.FetchPageRejected` | gentoo_install.py:121-130 | a fetch fails with a status iff some followed-redirect chain ends at a response that is neither a 200 nor followable, with that status and reason |
| `Fetch.FetchPageExhausted` | gentoo_install.py:121-128 | a fetch runs out of requests iff the first `fuel` responses are all followed redirects |
| `Partitions.BootIndex` | gentoo_install.py:68 | the boot child's size string is not smaller than the other's; equal sizes pick the second child |
| `Partitions.RolesFor` | gentoo_install.py:68-73 | boot and root are the `/dev/` paths of the first two children, with boot the one whose size string is not smaller; ties make the second child boot |
| `Partitions.AssignRoles` | gentoo_install.py:65-76 | fails with `IndexError` iff some device has fewer than two children, naming the first; fails iff no device has children; otherwise the roles come from the last device with children |
| `Pipeline.DownloadAll` | gentoo_install.py:241-245 | every matched file is downloaded from `base + file`, in order; the first failed download aborts, naming its URL |
| `Pipeline.FolderLinksHaveLatest` | gentoo_install.py:228-233 | once the folder list is known to be non-empty, `find_latest_timestamp` cannot fail |
| `Pipeline.ReleaseListing` | gentoo_install.py:227-239 | a produced listing names a valid release folder and at least one stage3 file; no failure comes from inside `find_latest_timestamp` |
| `Pipeline.ReleaseListingSteps` | gentoo_install.py:227-239 | a listing is produced only when the index fetch succeeded with that final URL, the folder listener found folders whose latest is `latest`, the page at `urljoin(index url, latest)` was fetched, and the file listener returned exactly the listed files |
| `Pipeline.Run` | gentoo_install.py:225-248 | a run that yields an archive had gpg, `rm` and `mv` succeed on it; a move is attempted only for a verified archive; no run fails inside `find_latest_timestamp` |
| `Pipeline.RunSucceedsOnlyAfterEveryStep` | gentoo_install.py:241-248 | a run that yields an archive produced a release listing, downloaded every listed file from `url/latest/file`, and returns the archive named by that listing's first `.asc` entry, which gpg and `rm` accepted and `mv` moved |
| `Pipeline.NoArchiveWithoutVerification` | gentoo_install.py:247-248 | when gpg accepts nothing, no run yields an archive |
| `Examples.ExampleTimestampValue` | gentoo_install.py:136-138 | `20240601T120000Z` parses to 2024-06-01 12:00:00 |
| `Examples.ExampleNamesValidity` | gentoo_install.py:141-146 | the two sample release names are valid and `not-a-date` is not |
| `Examples.FolderRuleExamples` | gentoo_install.py:179-183 | sample folder `href`s lose their slash and are kept or dropped by validity |
| `Examples.FolderRuleKeeps` | gentoo_install.py:180-183 | a valid release name listed with its trailing slash is kept, without the slash |
| `Examples.FolderModeExample` | gentoo_install.py:175-183 | a listing of two valid release folders with a non-timestamp directory between them yields the two names, slashes removed, in page order |
| `Examples.LatestExample` | gentoo_install.py:149-167 | of January and June 2024, June is chosen |
| `Examples.FileRuleExamples` | gentoo_install.py:196-197 | `readme.txt` is dropped; the sample archive and signature are kept |
| `Examples.FileModeExample` | gentoo_install.py:191-198 | a listing of a readme, an archive and its signature yields the archive and the signature |
| `Examples.ArchiveNameExample` | gentoo_install.py:218 | the sample signature names the sample archive |
| `Examples.VerifyExamples` | gentoo_install.py:213-219 | an accepted signature names the archive; a rejected one gives the verification error |
| `Examples.RedirectChainExample` | gentoo_install.py:121-133 | 301, then 302, then 200 resolves to the last body and URL; with only two requests it runs out |
| `Examples.EmptyLocationExample` | gentoo_install.py:123-130 | a 301 with an empty `Location` fails with status 301 |
| `Examples.RedirectLoopExample` | gentoo_install.py:121-128 | a self-redirect exhausts any number of requests |
| `Examples.PartitionRoleExamples` | gentoo_install.py:68-73 | with sizes "1.9G" and "463.8G" the second child becomes boot; with "9G" and "10G" the first does |

## Left out

- `Timestamp.Parse`: accepts only the canonical zero-padded form. `strptime` also accepts one-digit fields, a lower-case `t`/`z`, and non-ASCII decimal digits. Those names are invalid here, though the source would keep them.
- `Timestamp.Format`: always pads the year to four digits. On some platforms `strftime("%Y")` does not pad years below 1000, which only matters for such years.
- `Fetch.FetchPage`: the `fuel` bound stands for Python's recursion limit. The request line (HTTPS to the host, path only, with the query dropped), the body's UTF-8 decode and the connection close are I/O and not modelled.
- `Partitions.AssignRoles`: takes the already-decoded `blockdevices` list. `json.loads`, the `lsblk` invocation and the interactive `disk_name` prompt are I/O. The results are returned rather than written to module globals.
- `Pipeline.Run`: the gpg, `rm` and `mv` oracles model `run` as if it executed its command line. As written, `call(command)` at line 17 receives a single string without `shell=True`. On POSIX that whole string is taken as the program's name, so any command with arguments raises `FileNotFoundError` instead of running. This includes `call("chronyd -q")` at line 223, which aborts `time_sync_and_stage3_download` before line 225. The model does not include this failure. `chronyd`, `tar` and the final `rm` are left out, and the save path (`os.getcwd()` plus `os.path.basename`) is folded into the download oracle.
- `Signature.VerifyStage3`: gpg and `rm` are boolean oracles that model `run(..., True)` as if it executed the command line. As written, the command string would itself be taken as a program name, as described for `Pipeline.Run`. Their output and error text are not modelled.
- HTMLParser tokenisation (including its lower-casing of tag and attribute names) is not modelled: the listeners' input is the list of start tags it reports.
- `urljoin` is an opaque function, and the server is an oracle from URL to response.
- The disk plumbing of `setup_partitions` (parted), `root_encryption`, `filesystem_creation` and `mounting_and_subvolume_creation` consists of shell invocations with no decision logic.
- `download_file` (`urlretrieve`) is an oracle that either completes or fails.
