# IRI handling and IPv6 literals, modelled in Dafny

This project models the IRI class of `iri.php` and the part of `Net_IPv6` that it
uses to check bracketed hosts. The IRI setters, the constructor and `absolutize`
are modelled twice:

- as written, defects included (`IriAsWritten`);
- with the defects listed under "## Findings" corrected (`IriComponents` and the
  class `Iri`).

The two are proved to agree on every input that avoids those defects.

The `IRI` object holds seven nullable fields and a `$valid` table of setter
outcomes. It covers:

- splitting a reference into scheme, authority, path, query and fragment with the
  regular expression of RFC 3986 (`parse_iri`);
- normalising each component's percent-encoding against its own character set
  (`replace_invalid_with_pct_encoding`);
- removing dot segments (`remove_dot_segments`);
- the eight setters and their success flags;
- `is_valid`, `get_authority`, `get_iri`, the getters and the constructor;
- resolving a relative reference against a base (`absolutize`).

`Net_IPv6` contributes four operations:

- `removeNetmaskSpec`, which drops a "/prefix";
- `Uncompress`, which expands "::";
- `SplitV64`, which splits off a dotted IPv4 tail;
- `checkIPv6`, which counts well-formed groups.

PHP strings are byte strings, modelled as `seq<Byte>` with `Byte = c: char | c < 'Ā'`.
PHP's `null` is `None`.

The project is organised by module:

- `Text` (text.dfy) holds the PHP library functions the code relies on, written out:
  strspn, strpos, strrpos, explode, implode, str_replace, str_repeat, hexdec, dechex,
  strtolower and strtoupper.
- `PctEncoding` (pct_encoding.dfy) models `replace_invalid_with_pct_encoding` twice.
  - The method `ReplaceInvalidWithPctEncoding` runs the loop exactly as written. It is
    proved equal to a step function whose outcome is `Halts(s)` or `Diverges`, because
    on some inputs the loop as written never ends.
  - `Normalized` is the corrected normaliser: it decodes, upper-cases and escapes
    triplets as the comments in the source describe. The IRI setters use it.
  - `Normal` is the normal form it produces. It is proved to be the exact set of
    fixpoints, and the normaliser is proved idempotent.
  - On tame input the loop as written and the normaliser are proved to agree. Tame
    input holds allowed bytes, bytes of at least 0x10 to encode, triplets of bytes
    outside the set, and '%' bytes that no hexadecimal digit follows.
- `PctFindings` (pct_findings.dfy) holds the inputs from the class's own tests on which
  the two part ways.
- `DotSegments` (dot_segments.dfy) models `remove_dot_segments` as steps A to E of
  section 5.2.4 of RFC 3986, plus a method with the loop. `DotExamples`
  (dot_examples.dfy) holds that section's two worked examples.
- `NormalForms` (normal_forms.dfy) proves that dot removal keeps a path normal, and
  that lower-case normalisation of a host is idempotent.
- `IPv6`, `IPv6Check` and `IPv6Vectors` (ipv6*.dfy) model `removeNetmaskSpec`,
  `Uncompress`, `SplitV64` and `checkIPv6`, with the test vectors of the package's tests.
- `IriParse` (iri_parse.dfy) models `parse_iri`. Putting the groups back together and
  parsing again gives the same groups.
- `IriComponents` (iri_components.dfy) states the IRI object's operations as functions
  of a `Components` value. Each setter returns the new state and its boolean.
- `Iri` (iri.dfy) is the class: the fields, setter methods that update them, and
  `GetAuthority` and `GetIri` methods that build the text step by step. Each method is
  proved equal to the corresponding function of `IriComponents`, so the class is the
  corrected program.
- `IriAsWritten` (iri_as_written.dfy) is the program as written, on values. Its setters
  use the two-byte scheme check, the split at the first ':', the "//" check on the
  given path and the percent-encoding loop as written. They return `None` where that
  loop never ends. Agreement lemmas state exactly when each one gives the corrected
  result. It also holds the as-written halves of the authority and path findings.
- `ResolveVectors` (resolve_vectors.dfy) resolves references of section 5.4.1 of
  RFC 3986 against the base "http://a/b/c/d;p?q", as written and corrected.
- `IriProperties` (iri_properties.dfy) holds the setters' defects and corrections, the
  inverse of the authority split, validity, idempotence of the setters on what they
  stored, and what `absolutize` takes from the base and from the relative reference.

The documentation of this library describes a later revision with two differences
from this code, and on both the model follows this code:

- it has a per-scheme table of default ports, hosts and paths that are suppressed;
- it has an `is_valid` recomputed from the fields.

The code here has no default table, so "http://example.com:80" keeps its port. Its
`is_valid` reads the `$valid` table that each setter writes, so validity depends on the
history of setter calls.

## Model

| member | source | states |
|---|---|---|
| Iri.Iri.constructor | iri.php:102-110 | corrected: the new object's state is `Construct(iri)`: the parse groups given to set_scheme, set_authority, set_path, set_query and set_fragment, in that order |
| Iri.Iri.SetScheme | iri.php:372-403 | corrected: the new state and the returned flag are those of `WithScheme` on the old state |
| Iri.Iri.SetAuthority | iri.php:412-435 | corrected: the new state and flag are those of `WithAuthority` (corrected split) on the old state |
| Iri.Iri.SetUserinfo | iri.php:443-455 | corrected: the new state and flag are those of `WithUserinfo` on the old state |
| Iri.Iri.SetHost | iri.php:464-493 | corrected: the new state and flag are those of `WithHost` on the old state |
| Iri.Iri.SetPort | iri.php:502-522 | the new state and flag are those of `WithPort` on the old state |
| Iri.Iri.SetPath | iri.php:530-554 | corrected: the new state and flag are those of `WithPath` (corrected "//" check) on the old state |
| Iri.Iri.SetQuery | iri.php:562-574 | corrected: the new state and flag are those of `WithQuery` on the old state |
| Iri.Iri.SetFragment | iri.php:582-594 | corrected: the new state and flag are those of `WithFragment` on the old state |
| Iri.Iri.GetAuthority | iri.php:650-674 | the text built piece by piece is `IriComponents.GetAuthority` of the object's state |
| Iri.Iri.GetIri | iri.php:601-633 | the text built piece by piece is `IriComponents.GetIri` of the object's state |
| Iri.Iri.IsValid | iri.php:360-363 | is_valid: true exactly when every setter call recorded in `$valid` succeeded; it is `IriComponents.IsValid` of the state |
| Iri.Iri.Absolutize | iri.php:119-189 | corrected: an empty reference returns the base object itself; otherwise a fresh object whose state is `Resolve(base, relative)` |
| Iri.Iri.ResolveAgainst | iri.php:129-177 | corrected: against a non-empty base, the parsed reference (modified in place) or a fresh object holds `Against(base, reference)` |
| Iri.Iri.TakeScheme | iri.php:131-135 | corrected: a reference with an authority takes only the base's scheme, in place |
| Iri.Iri.MergeFrom | iri.php:136-176 | corrected: a reference without an authority yields a fresh object holding `Against(base, reference)` |
| Iri.Iri.MergeOnto | iri.php:138-174 | corrected: the fresh object holds `Merge(base, reference)`: the base's scheme and authority, then the chosen path and query |
| Iri.Iri.NewFromBase | iri.php:138-142 | corrected: a fresh `new IRI('')` given the base's scheme, userinfo, host and port |
| Iri.Iri.TakeAuthorityOf | iri.php:139-142 | corrected: the four setters applied in place, as `TakeAuthority` |
| Iri.Iri.SetPathAndQuery | iri.php:143-174 | corrected: the path and query set in place as `MergePath` chooses them |
| IriParse.Until | iri.php:204 | a group of the pattern stops at the first byte of its stop class: no stop byte before it, one at it |
| IriParse.AfterScheme | iri.php:204 | the scheme group with its ':' followed by the rest is the whole input |
| IriParse.AfterAuthority | iri.php:204 | the "//" authority group followed by the rest is the input; the rest starts at '/', '?', '#' or the end |
| IriParse.AfterPath | iri.php:204 | the path group followed by the rest is the input; the rest is empty or starts with '?' or '#' |
| IriParse.AfterQuery | iri.php:204 | the '?' query group followed by the rest is the input; the rest is empty or starts with '#' |
| IriParse.FragmentGroup | iri.php:204 | the fragment group takes everything after '#' and holds no line feed |
| IriParse.ComposeMatch | iri.php:204-211 | every input without a line feed matches, and the groups spell the input back |
| IriParse.MatchShaped | iri.php:204-211 | the groups of any match are well shaped: each within its character class; after an authority the path is empty or starts with '/'; without one it does not start with "//"; without scheme and authority it cannot be read as a scheme |
| IriParse.MatchCompose | iri.php:204-211 | for well-shaped groups, parsing their composition gives the same groups back |
| IriParse.SchemeBack | iri.php:204 | the scheme group of a composition is the scheme that was put in |
| IriParse.AuthorityBack | iri.php:204 | the authority group of a composition is the authority that was put in |
| IriParse.PathBack | iri.php:204 | the path group of a composition is the path that was put in |
| IriParse.QueryBack | iri.php:204 | the query and fragment groups of a composition are those that were put in |
| IriParse.ParseIri | iri.php:197-216 | parse_iri: the five groups of the RFC 3986 pattern, each '' when absent; `ComposeMatch` and `MatchCompose` state what it returns |
| IriComponents.WithScheme | iri.php:372-403 | corrected: succeeds exactly for null, '' or a scheme of the RFC 3986 grammar; stores it lower-cased; records the outcome; nothing else changes |
| IriComponents.LowerKeepsScheme | iri.php:399 | lower-casing keeps a scheme within the grammar |
| IriComponents.WithUserinfo | iri.php:443-455 | corrected: always succeeds; stores the normalised userinfo, which is in normal form and holds no '@'; null for '' |
| IriComponents.WithHost | iri.php:464-493 | corrected: a bracketed host succeeds exactly when what is inside is an IPv6 address and is kept verbatim; any other host is stored lower-cased and normalised; a failure stores null |
| IriComponents.WithPort | iri.php:502-522 | succeeds exactly for null, '' or all digits; stores the decimal value; a failure stores null |
| IriComponents.PortText | iri.php:142 | the port read back as text is all digits with the stored value |
| IriComponents.StoredPath | iri.php:544-551 | corrected: the path stored is the normalised path, with dot segments removed (and then dot free) when a scheme is set; always in normal form |
| IriComponents.WithPath | iri.php:530-554 | corrected: fails exactly when the stored path would start "//" with no authority, so a stored path never does |
| IriComponents.WithQuery | iri.php:562-574 | corrected: always succeeds; stores the normalised query, in normal form and without '#'; null for '' |
| IriComponents.WithFragment | iri.php:582-594 | corrected: always succeeds; stores the normalised fragment, in normal form and without a line feed; null for '' |
| IriComponents.Normalize | iri.php:445-452 | corrected: a setter argument gives a value exactly when it is neither null nor ''; that value is non-empty and in normal form |
| IriComponents.NormalizeExcludes | iri.php:445-452 | corrected: a byte the character set does not allow, other than '%', never occurs in a stored component |
| IriComponents.SplitUserinfo | iri.php:414-422 | the userinfo before the last '@' and the rest put back give the authority; the rest holds no '@' |
| IriComponents.SplitAuthorityAsWritten | iri.php:412-435 | as written: the three parts put back give the authority; the host holds no ':' because the split is at the first ':' |
| IriComponents.SplitAuthority | iri.php:412-435 | corrected: the parts put back give the authority; a host holding ':' is a bracketed literal |
| IriComponents.AuthorityOk | iri.php:412-435 | set_authority succeeds exactly when set_host and set_port both do |
| IriComponents.AuthorityFields | iri.php:412-435 | set_authority sets userinfo and host as their setters do; the port only when the host succeeded; nothing else changes |
| IriComponents.AuthorityRecords | iri.php:412-435 | the userinfo and host outcomes are recorded, and the port outcome only when the host succeeded |
| IriComponents.WithAuthority | iri.php:412-435 | corrected set_authority: the corrected split handed to set_userinfo, set_host and set_port; `AuthorityOk` and `AuthorityFields` state its outcome and new state |
| IriComponents.GetAuthority | iri.php:650-674 | the authority is null exactly when no userinfo, host or port is set, and never '' |
| IriComponents.GetIri | iri.php:601-633 | the text is null exactly when every component is null and the path is null or '', and never '' |
| IriComponents.IsValid | iri.php:360-363 | is_valid: every recorded setter outcome is true; `IriProperties.SetterValidity` states how a setter changes it |
| IriComponents.Construct | iri.php:102-110 | corrected constructor: parse, then the five setters in order; `IriProperties.ConstructSettled` and `IriAsWritten.ConstructAgrees` state what it builds |
| IriComponents.ConstructEmpty | iri.php:102-110 | `new IRI('')` has every field null and every key recorded as valid |
| IriComponents.EmptyAuthority | iri.php:412-435 | set_authority('') on an object without authority only records three successes |
| IriComponents.MergedPath | iri.php:143-160 | the merged path ends with the reference's path, after nothing, a '/' or the base path up to and including its last '/' |
| IriComponents.Resolve | iri.php:119-189 | corrected absolutize: '' gives the base; a reference with a scheme, or any reference against an empty base, is the parsed reference; otherwise `Against`. `IriProperties.ResolveTakesBase`, `ResolveMergedPath` and `ResolveVectors` state what it returns |
| IriComponents.Against | iri.php:129-177 | a reference with an authority takes the base's scheme; one without is merged onto the base; the reference's fragment is set last |
| IriComponents.Merge | iri.php:136-176 | a fresh object given the base's scheme and authority, then the path and query `MergePath` chooses |
| IriComponents.BaseAuthority | iri.php:138-142 | `new IRI('')` given the base's scheme, userinfo, host and port |
| IriComponents.TakeAuthority | iri.php:139-142 | set_scheme, set_userinfo, set_host and set_port with the base's values, in that order |
| IriComponents.MergePath | iri.php:143-174 | with a relative path, the merged path and the reference's query; without one, the base's path and the reference's query, or else the base's |
| IriProperties.SchemeCheckStopsAtTwo | iri.php:383-397 | as written, the scheme check reads only the first two bytes |
| IriProperties.SchemeCheckAsWritten | iri.php:383-397 | "ht~p" passes the check as written but is not a scheme |
| IriProperties.SchemeCheckCorrected | iri.php:383-397 | every scheme passes the check as written, which is exact for at most two bytes |
| IriProperties.AuthoritySplitAsWritten | iri.php:424-432 | as written, "[::1]" splits into host "[" and port ":1]" |
| IriProperties.AuthoritySplitCorrected | iri.php:424-432 | corrected, "[::1]" is all host |
| IriProperties.LoopbackHostKept | iri.php:412-435 | corrected, set_authority("[::1]") succeeds and keeps the host |
| IriProperties.LiteralHostKept | iri.php:412-493 | corrected split: a bracketed IPv6 literal as the whole authority succeeds and is kept as the host |
| IriProperties.LiteralSplit | iri.php:412-435 | corrected split: userinfo, a bracketed literal and a port, joined and split again, come back unchanged |
| IriProperties.SplitRoundTrip | iri.php:412-435 | corrected split: any userinfo, a host without '@' (bracketed or without ':') and a port without '@', joined and split, come back unchanged |
| IriProperties.SetterValidity | iri.php:360-363 | after a setter the object is valid exactly when that call succeeded and every other recorded call did |
| IriProperties.FailedHostInvalid | iri.php:360-363 | a failed set_host leaves the object invalid |
| IriProperties.SchemeSettles | iri.php:372-403 | setting the stored scheme again leaves it unchanged |
| IriProperties.UserinfoSettles | iri.php:443-455 | corrected: setting the stored userinfo again leaves it unchanged |
| IriProperties.HostSettles | iri.php:464-493 | corrected: setting the stored host again leaves it unchanged |
| IriProperties.PortSettles | iri.php:502-522 | setting the stored port, read as text, again leaves it unchanged |
| IriProperties.PathSettles | iri.php:530-554 | corrected: setting a stored non-empty path again leaves it unchanged |
| IriProperties.QuerySettles | iri.php:562-574 | corrected: setting the stored query again leaves it unchanged |
| IriProperties.FragmentSettles | iri.php:582-594 | corrected: setting the stored fragment again leaves it unchanged |
| IriProperties.AuthoritySettles | iri.php:412-435 | corrected: userinfo and host left by set_authority are unchanged by their own setters |
| IriProperties.ConstructSettled | iri.php:102-110 | corrected: every component a new object holds is unchanged when set again |
| IriProperties.PathContext | iri.php:530-554 | set_path depends on the object only through whether a scheme and an authority are set |
| IriProperties.EncodedSlashes | iri.php:538-551 | the corrected normaliser turns "%2F/x" into "//x" |
| IriProperties.PathReadsAsAuthority | iri.php:197-216 | "//x" parses as the authority "x" with an empty path |
| IriProperties.OnlyPath | iri.php:601-633 | an object holding only a non-empty path outputs that path |
| IriProperties.PathCheckCorrected | iri.php:538-546 | corrected, "%2F/x" on an empty object fails and stores no path |
| IriProperties.BaseAuthorityKept | iri.php:138-142 | corrected: the fresh object takes the base's scheme, userinfo, host and port unchanged |
| IriProperties.BaseAuthorityOnly | iri.php:138-142 | corrected: the fresh object has no path, query or fragment yet |
| IriProperties.ResolveFragment | iri.php:124-176 | corrected: the result's fragment is always the reference's |
| IriProperties.RelativePathKeepsDots | iri.php:546-550 | a reference without a scheme keeps its dot segments (only normalisation is applied) |
| IriProperties.ResolveWithAuthority | iri.php:131-135 | corrected: a reference with an authority keeps its authority, path, query and fragment and takes the base's scheme |
| IriProperties.ResolveTakesBase | iri.php:136-176 | corrected: a reference without an authority takes the base's scheme, userinfo, host and port and keeps its fragment |
| IriProperties.MergeKeepsAuthority | iri.php:143-174 | corrected: setting path and query leaves scheme, userinfo, host and port alone |
| IriProperties.MergeWithPath | iri.php:143-161 | corrected: with a path, the merged path is set on the base and the reference's query is taken |
| IriProperties.MergeWithoutPath | iri.php:163-174 | corrected: without a path, the base's path is kept, and the reference's query if it has one, else the base's |
| IriProperties.ResolveMergedPath | iri.php:143-161 | corrected: resolving a relative path gives the merged path and the reference's query |
| IriProperties.ResolveBasePath | iri.php:163-174 | corrected: resolving a reference without path keeps the base's path, and the query as chosen |
| IriAsWritten.SchemeAsWritten | iri.php:372-403 | set_scheme as written: succeeds exactly for null, '' or a scheme passing the two-byte check; stores it lower-cased; nothing else changes |
| IriAsWritten.Encoded | iri.php:445-452 | a setter's argument through the loop as written: no value exactly when the loop never returns; a value exactly for a non-empty argument, the loop's result |
| IriAsWritten.UserinfoAsWritten | iri.php:443-455 | set_userinfo as written: never returns exactly when the loop diverges; otherwise succeeds; nothing else changes |
| IriAsWritten.QueryAsWritten | iri.php:562-574 | set_query as written: never returns exactly when the loop diverges; otherwise succeeds; nothing else changes |
| IriAsWritten.FragmentAsWritten | iri.php:582-594 | set_fragment as written, with the query's character set: never returns exactly when the loop diverges; nothing else changes |
| IriAsWritten.HostAsWritten | iri.php:464-493 | set_host as written: a bracketed host succeeds exactly when it holds an IPv6 address; any other runs the loop, lower-cased, and never returns exactly when it diverges |
| IriAsWritten.PathAsWritten | iri.php:530-554 | set_path as written: fails exactly when the given path starts "//" with no authority; otherwise never returns exactly when the loop diverges |
| IriAsWritten.AuthorityAsWritten | iri.php:412-435 | set_authority as written: only userinfo, host, port and their outcomes change; on success the host is set unless the split gave none |
| IriAsWritten.ConstructAsWritten | iri.php:102-110 | the constructor as written: the scheme is the lower-cased parsed scheme when it passes the two-byte check |
| IriAsWritten.ConstructAsWrittenEmpty | iri.php:102-110 | `new IRI('')` as written has every field null |
| IriAsWritten.SchemeAgrees | iri.php:372-403 | set_scheme as written equals the corrected one exactly when the scheme is not one that passes the two-byte check and fails the RFC 3986 grammar |
| IriAsWritten.UserinfoAgrees | iri.php:443-455 | on a tame argument set_userinfo as written returns the corrected result |
| IriAsWritten.QueryAgrees | iri.php:562-574 | on a tame argument set_query as written returns the corrected result |
| IriAsWritten.FragmentAgrees | iri.php:582-594 | on a tame argument set_fragment as written returns the corrected result |
| IriAsWritten.HostAgrees | iri.php:464-493 | on a tame or bracketed host set_host as written returns the corrected result |
| IriAsWritten.PathAgrees | iri.php:530-554 | on a tame path, set_path as written returns the corrected result exactly when the "//" check on the given path and on the stored path agree |
| IriAsWritten.SplitsAgree | iri.php:414-432 | without a bracketed literal the split as written and the corrected split coincide |
| IriAsWritten.AuthorityAgrees | iri.php:412-435 | when both splits of the authority coincide and its parts are tame, set_authority as written returns the corrected result |
| IriAsWritten.ConstructAgrees | iri.php:102-110 | on an IRI whose parts avoid every defect the constructor as written builds the corrected object |
| IriAsWritten.SettledTame | iri.php:136-176 | every field a settled object holds is one the setters as written store unchanged: a faithful scheme, tame userinfo, host, query and fragment, a normal path |
| IriAsWritten.MergedNormal | iri.php:153-156 | the base's directory followed by a normal path is normal |
| IriAsWritten.MergeFaithfulWithAuthority | iri.php:538-551 | against a settled base with an authority the two "//" checks on the merged path agree |
| IriAsWritten.TakeAuthorityAgrees | iri.php:139-142 | copying a base's scheme, userinfo, host and port as written gives the corrected result when they are faithful and tame |
| IriAsWritten.MergeAgrees | iri.php:136-174 | for settled objects whose merged path is faithful, the merge as written gives the corrected result |
| IriAsWritten.AgainstAgrees | iri.php:129-177 | for settled objects whose merged path is faithful, resolution against a base as written gives the corrected result |
| IriAsWritten.ResolveAgrees | iri.php:119-189 | absolutize as written equals the corrected absolutize for a settled base and an empty or faithful reference |
| IriAsWritten.LoopbackAsWritten | iri.php:424-432 | as written, set_authority("[::1]") returns and fails |
| IriAsWritten.OpenBracketHost | iri.php:464-493 | as written, the host "[" is accepted |
| IriAsWritten.OpenBracketPort | iri.php:502-522 | the port ":1]" is refused |
| IriAsWritten.DotSlashStored | iri.php:546-550 | "/.//x" is kept by the loop and becomes "//x" once dot segments are removed |
| IriAsWritten.DotSlashPathAsWritten | iri.php:538-551 | as written, with scheme "a", set_path("/.//x") succeeds and stores "//x"; get_iri gives "a://x", which parses with the authority "x" |
| IriAsWritten.DotSlashPathCorrected | iri.php:538-551 | corrected, with scheme "a", set_path("/.//x") fails |
| IriAsWritten.SchemeAndPath | iri.php:601-633 | an object with only scheme "a" and path "//x" outputs "a://x" |
| IriAsWritten.ReadsBackAuthority | iri.php:197-216 | "a://x" parses with the authority "x" |
| ResolveVectors.Sibling | IRITest.php:53 | "g" against "http://a/b/c/d;p?q" gives "http://a/b/c/g", as written and corrected |
| ResolveVectors.ParameterUp | IRITest.php:89 | "g;x=1/../y" gives "http://a/b/c/y", as written and corrected |
| ResolveVectors.AboveRoot | IRITest.php:76 | "../../../g" gives "http://a/g", as written and corrected |
| ResolveVectors.TwiceUp | IRITest.php:72 | "../.." gives "http://a/", as written and corrected; the test expects "http://a" |
| ResolveVectors.BaseSpelled | IRITest.php:103 | the base built from its groups is "http://a/b/c/d;p?q" |
| ResolveVectors.BaseFields | iri.php:102-110 | new IRI("http://a/b/c/d;p?q") holds scheme "http", host "a", path "/b/c/d;p" and query "q", and nothing else |
| ResolveVectors.ConstructPlain | iri.php:102-110 | an IRI of a scheme, a host, a dot-free path and a query of allowed bytes is stored as parsed |
| ResolveVectors.ReferenceFields | iri.php:102-110 | a relative path of allowed bytes without ':' is stored as the path and nothing else |
| ResolveVectors.MergedVector | iri.php:143-176 | a plain relative path against a hosted settled base gives scheme, "//", host, and the merged path with dot segments removed |
| ResolveVectors.MergedVectorAsWritten | iri.php:119-189 | for such a base and reference absolutize as written gives the corrected result |
| ResolveVectors.AgainstHosted | iri.php:119-189 | both of the above for a base given by its text |
| ResolveVectors.HostIri | iri.php:601-633 | get_iri of an object holding scheme, host and path is scheme ":" "//" host path |
| ResolveVectors.PathUnderAuthority | iri.php:544-551 | with a scheme and a host, a path of allowed bytes is stored with dot segments removed |
| ResolveVectors.MergedOnto | iri.php:153-156 | the merged path is the base's path up to its last '/' followed by the reference |
| PctEncoding.ReplaceInvalidWithPctEncoding | iri.php:286-353 | the loop ends with `out` exactly when the step function halts with `out`, and runs forever exactly when it diverges |
| PctEncoding.Replaced | iri.php:286-353 | replace_invalid_with_pct_encoding as written: case mapping, then the loop from position 0 to the length; `Halts(s)` or `Diverges` |
| PctEncoding.Run | iri.php:303-351 | the loop as written from a position and a `$strlen`, one pass per step |
| PctEncoding.Normalized | iri.php:286-353 | the corrected normaliser; `NormalizedIsNormal`, `NormalFixpoint` and `NormalizedIdempotent` state what it returns |
| PctEncoding.LoopBody | iri.php:306-350 | one pass of the loop body is one step of the step function |
| PctEncoding.RunPass | iri.php:306-350 | each pass lowers the count of disallowed bytes, or keeps it and moves the position closer to $strlen |
| PctEncoding.Span | iri.php:303 | strspn: the bytes from `from` are allowed up to the position returned, and the byte there is not |
| PctEncoding.Chr | iri.php:312 | chr(hexdec(two digits)) is the byte of that value |
| PctEncoding.Recase | iri.php:288-296 | case normalisation changes each byte as its own case mapping does and keeps the length |
| PctEncoding.RecaseAllowed | iri.php:315-325 | changing case keeps a byte allowed or not allowed |
| PctEncoding.PlainAgrees | iri.php:286-353 | on input without '%' whose bytes that need encoding are at least 0x10, the loop as written halts with the normalised text |
| PctEncoding.RunAgrees | iri.php:303-351 | from a normal prefix and a tail the loop handles correctly, the loop as written halts with what the corrected normaliser gives |
| PctEncoding.NormalizePass | iri.php:306-350 | the corrected pass lowers the count of disallowed bytes, or keeps it and advances the position |
| PctEncoding.EncodeByte | iri.php:346-350 | encoding a byte strictly lowers the count of disallowed bytes |
| PctEncoding.Triplet | iri.php:348 | the corrected encoding is '%' and two upper-case hexadecimal digits |
| PctEncoding.NormalizedIsNormal | iri.php:286-353 | the normaliser's result is in normal form: allowed bytes, and upper-case triplets for bytes that are not allowed |
| PctEncoding.NormalFixpoint | iri.php:286-353 | text is left unchanged exactly when it is in normal form |
| PctEncoding.NormalizedIdempotent | iri.php:286-353 | normalising a normalised text changes nothing |
| PctEncoding.NormalExcludes | iri.php:286-353 | a byte outside the set other than '%' never occurs in normal form |
| PctEncoding.TameAgrees | iri.php:286-353 | on tame input (allowed bytes, bytes of at least 0x10 to encode, triplets of bytes that are not allowed, and a '%' that no hex digit follows) the loop as written halts with the corrected normaliser's result |
| PctEncoding.AllowedUnchanged | iri.php:303 | text whose bytes are all allowed comes back unchanged from the loop as written |
| PctEncoding.NormalUnchanged | iri.php:286-353 | normal text comes back unchanged from the loop as written |
| PctEncoding.TrailingPercentEscaped | iri.php:338-343 | a '%' at the end of the input becomes "%25" in the loop as written |
| NormalForms.NormalLowerTame | iri.php:288-296 | lower-cased normal text is tame, so the loop as written gets a stored host right when it is set again |
| PctFindings.OneHexDigitAsWritten | iri.php:309 | as written, "f%0o" halts with "f%0O" |
| PctFindings.OneHexDigitCorrected | iri.php:338-343 | corrected, "f%0o" becomes "f%250o" |
| PctFindings.DecodeKeepsPercentAsWritten | iri.php:325-326 | as written, "%63" halts with "%c" |
| PctFindings.DecodeKeepsPercentCorrected | iri.php:315-328 | corrected, "%63" becomes "c" |
| PctFindings.LineFeedAsWritten | iri.php:346-350 | as written, "c\x0Ad" never halts |
| PctFindings.LineFeedCorrected | iri.php:346-350 | corrected, "c\x0Ad" becomes "c%0Ad" |
| PctFindings.EarlyStopAsWritten | iri.php:325-327 | as written, the query "%63\xE9" halts with "%c\xE9": the scan stops one byte short and 0xE9 stays raw |
| PctFindings.EarlyStopCorrected | iri.php:315-350 | corrected, "%63\xE9" becomes "c%E9" |
| DotSegments.DropLastSegment | iri.php:251 | removes the last '/' and what follows it, or everything when there is no '/' |
| DotSegments.Step | iri.php:229-273 | every step shortens the input buffer and does not grow the two buffers together |
| DotSegments.MoveSegment | iri.php:264-273 | step E moves the first segment unchanged from input to output |
| DotSegments.RemoveDotSegments | iri.php:224-276 | a path without "./", "/." and not "." or ".." comes back unchanged |
| DotSegments.RemoveDots | iri.php:224-276 | the loop returns `RemoveDotSegments(path)` |
| DotSegments.ResultDotFree | iri.php:224-276 | the result has no "." or ".." segment |
| DotSegments.DotFreeFixed | iri.php:224-276 | a path without dot segments comes back unchanged |
| DotSegments.FixedIffDotFree | iri.php:224-276 | a path comes back unchanged exactly when it has no dot segment |
| DotSegments.Idempotent | iri.php:224-276 | removing dot segments twice is removing them once |
| DotSegments.ResultLength | iri.php:224-276 | the result is never longer than the path |
| DotSegments.AbsoluteStaysAbsolute | iri.php:224-276 | a path starting with '/' gives a result starting with '/' |
| DotExamples.FirstExample | iri.php:224-276 | "/a/b/c/./../../g" gives "/a/g" |
| DotExamples.SecondExample | iri.php:224-276 | "mid/content=5/../6" gives "mid/6" |
| NormalForms.RemovedNormal | iri.php:546-550 | dot removal keeps a path in normal form |
| NormalForms.NormalizedLowered | iri.php:489 | lower-case normalisation leaves no upper-case byte outside triplets |
| NormalForms.LowercaseIdempotent | iri.php:489 | lower-case normalisation of a normalised host changes nothing |
| IPv6.RemoveNetmaskSpec | Net_IPv6/IPv6.php:53-60 | the result is the input up to its first '/', holds no '/', and is the input when it has no '/' |
| IPv6.NetmaskIsFirstPiece | Net_IPv6/IPv6.php:53-60 | the result is the first piece of explode('/') |
| IPv6.NetmaskCut | Net_IPv6/IPv6.php:53-60 | an address followed by '/' and anything gives the address back |
| IPv6.Uncompress | Net_IPv6/IPv6.php:81-125 | text without "::" only loses its prefix |
| IPv6.UncompressGap | Net_IPv6/IPv6.php:85-122 | with one "::" and no prefix, the result is the expansion chosen by the colon counts on both sides |
| IPv6.UncompressGroups | Net_IPv6/IPv6.php:81-125 | with one "::", no prefix and room for one zero at least, the result is the groups before, the missing zeros and the groups after, joined by ':' |
| IPv6.UncompressEightGroups | Net_IPv6/IPv6.php:81-125 | the expanded address explodes into those groups: eight, or seven and an IPv4 tail |
| IPv6.ExpandedColonFree | Net_IPv6/IPv6.php:81-125 | the expansion has eight groups (seven and a tail) and none holds ':' |
| IPv6.PrefixMiscount | Net_IPv6/IPv6.php:97-121 | as written, "g::/n" expands to g, six zeros and an empty last group |
| IPv6.UncompressAddress | Net_IPv6/IPv6.php:144-146 | removeNetmaskSpec and then Uncompress, as SplitV64 does; the prefix is removed before the groups are counted, and without a prefix the result is `Uncompress` |
| IPv6.UncompressAddressGroups | Net_IPv6/IPv6.php:144-146 | the expansion SplitV64 computes is, whatever prefix follows, the groups before, the zeros and the groups after |
| IPv6.ImplodeExplode | Net_IPv6/IPv6.php:150 | imploding the pieces of explode gives the text back |
| IPv6.Expand | Net_IPv6/IPv6.php:110-122 | the four expansions of Uncompress, chosen by the colon counts on the two sides of "::"; `UncompressGap` and `UncompressGroups` state what they give |
| IPv6Check.SplitV64 | Net_IPv6/IPv6.php:144-155 | two parts at least; without '.' the expanded address and '' |
| IPv6Check.SplitAtLastColon | Net_IPv6/IPv6.php:147-151 | with a '.', the split is at the last ':' of the expanded address |
| IPv6Check.CheckIPv6 | Net_IPv6/IPv6.php:170-203 | the two counting loops answer `IsIPv6Address(ip)` |
| IPv6Check.CountGroups | Net_IPv6/IPv6.php:176-182 | the loop counts the groups that pass the group test |
| IPv6Check.CountQuads | Net_IPv6/IPv6.php:188-192 | the loop counts the IPv4 pieces that pass the piece test |
| IPv6Check.CountPassing | Net_IPv6/IPv6.php:176-192 | the count is at most the number of pieces, and equal exactly when all pass |
| IPv6Check.ZerosStripped | Net_IPv6/IPv6.php:178 | the pattern strips at most three leading zeros and leaves one byte at least |
| IPv6Check.GroupIffCanonical | Net_IPv6/IPv6.php:177-179 | a group passes exactly when it is one or more hex digits of value at most 0xFFFF with at most three padding zeros |
| IPv6Check.QuadIffCanonical | Net_IPv6/IPv6.php:189 | a piece passes exactly when, without a final line feed, it is one to three digits of value at most 255 |
| IPv6Check.ByteQuad | Net_IPv6/IPv6.php:189 | the decimal text of every value up to 255 passes |
| IPv6Check.IgnoresPrefix | Net_IPv6/IPv6.php:170-172 | a "/prefix" after the address never changes the answer |
| IPv6Check.RejectsBarePrefix | Net_IPv6/IPv6.php:174 | a prefix with no address is rejected |
| IPv6Check.AcceptsFullForm | Net_IPv6/IPv6.php:170-184 | eight valid groups joined by ':', with or without a prefix, are accepted |
| IPv6Check.AcceptsFullDotted | Net_IPv6/IPv6.php:185-195 | six valid groups and four valid IPv4 pieces are accepted |
| IPv6Check.AcceptsCompressed | Net_IPv6/IPv6.php:170-184 | valid groups around one "::" that stands for one group at least are accepted |
| IPv6Check.AcceptsCompressedDotted | Net_IPv6/IPv6.php:170-195 | the same with an IPv4 tail of four valid pieces |
| IPv6Check.CountsPassingGroups | Net_IPv6/IPv6.php:176-184 | eight valid groups and a ninth piece are accepted exactly when the ninth fails the group test |
| IPv6Check.IsIPv6Address | Net_IPv6/IPv6.php:170-203 | checkIPv6 as a predicate: eight passing groups, or six and four passing IPv4 pieces; `CheckIPv6` computes it and `AcceptsFullForm`, `AcceptsCompressed` and `IgnoresPrefix` state it |
| IPv6Check.WellFormedGroup | Net_IPv6/IPv6.php:177-179 | the group test: value at most 0xFFFF and the zero-stripped group equal to dechex of its value, upper-cased; `GroupIffCanonical` states it |
| IPv6Check.WellFormedQuad | Net_IPv6/IPv6.php:189 | the IPv4 piece test: value at most 255 and one to three digits; `QuadIffCanonical` states it |
| IPv6Vectors.UncompressInnerExample | NetIPv6Test.php:76 | "ff01::101" expands to "ff01:0:0:0:0:0:0:101" |
| IPv6Vectors.UncompressLeadingExample | NetIPv6Test.php:77 | "::1" expands to "0:0:0:0:0:0:0:1" |
| IPv6Vectors.UncompressTrailingExample | NetIPv6Test.php:78 | "1::" expands to "1:0:0:0:0:0:0:0" |
| IPv6Vectors.UncompressPrefixExample | Net_IPv6/IPv6.php:97-121 | as written, "1::/8" expands to "1:0:0:0:0:0:0:" |
| IPv6Vectors.ValidInnerExample | NetIPv6Test.php:104 | "ff01::101" is accepted |
| IPv6Vectors.ValidLeadingExample | NetIPv6Test.php:111 | "::1/128" is accepted |
| IPv6Vectors.ValidTrailingExample | NetIPv6Test.php:112 | "FF00::/8" is accepted |
| IPv6Vectors.ValidGapExample | NetIPv6Test.php:110 | "::/128" is accepted |
| IPv6Vectors.ValidDottedExample | NetIPv6Test.php:117 | "::FFFF:129.144.52.38" is accepted |
| IPv6Vectors.ValidDotted | Net_IPv6/IPv6.php:170-195 | one optional group, "::", a group and a valid IPv4 tail are accepted |
| IPv6Vectors.ValidBetween | Net_IPv6/IPv6.php:170-184 | two short groups around "::" are accepted |

## Left out

- The class `Iri`, `IriComponents` and the `IriProperties` lemmas about them model the corrected program. Each member listed below departs from the code as written on the input given; the as-written function in `IriAsWritten` gives the code's result, and the agreement lemma named states the inputs on which the two coincide.
- constructor: built from the corrected setters; as written, "ht~p:x" keeps the scheme "ht~p" and "c\nd" as a fragment never returns (`IriAsWritten.ConstructAsWritten`, `IriAsWritten.ConstructAgrees`).
- SetScheme: checks every byte; as written, "ht~p" is accepted (`IriAsWritten.SchemeAsWritten`, `IriAsWritten.SchemeAgrees`).
- SetAuthority: uses the corrected split; as written, "[::1]" fails (`IriAsWritten.AuthorityAsWritten`, `IriAsWritten.LoopbackAsWritten`, `IriAsWritten.AuthorityAgrees`).
- SetUserinfo: uses the corrected normaliser; as written, "%63" is stored as "%c" and "a\x01b" never returns (`IriAsWritten.UserinfoAsWritten`, `IriAsWritten.UserinfoAgrees`).
- SetHost: uses the corrected normaliser; as written, "%41" is stored as "%a" (`IriAsWritten.HostAsWritten`, `IriAsWritten.HostAgrees`).
- SetPath: checks for "//" after normalisation and dot removal; as written, with a scheme, "/.//x" is stored as "//x" (`IriAsWritten.PathAsWritten`, `IriAsWritten.PathAgrees`, `IriAsWritten.DotSlashPathAsWritten`).
- SetQuery: uses the corrected normaliser; as written, "%63" is stored as "%c" (`IriAsWritten.QueryAsWritten`, `IriAsWritten.QueryAgrees`).
- SetFragment: uses the corrected normaliser; as written, "c\nd" never returns (`IriAsWritten.FragmentAsWritten`, `IriAsWritten.FragmentAgrees`).
- Absolutize: uses the corrected setters; as written, "f%0o" against "http://a/b/c/d" gives "http://a/b/c/f%0O" (`IriAsWritten.ResolveAsWritten`, `IriAsWritten.ResolveAgrees`).
- ResolveAgainst: uses the corrected setters (`IriAsWritten.AgainstAsWritten`, `IriAsWritten.AgainstAgrees`).
- MergeFrom: uses the corrected setters (`IriAsWritten.AgainstAsWritten`, `IriAsWritten.AgainstAgrees`).
- MergeOnto: uses the corrected setters (`IriAsWritten.MergeAsWritten`, `IriAsWritten.MergeAgrees`).
- SetPathAndQuery: uses the corrected setters (`IriAsWritten.MergePathAsWritten`, `IriAsWritten.MergeAgrees`).
- TakeScheme: uses the corrected set_scheme; as written, a base scheme "ht~p" is accepted again (`IriAsWritten.SchemeAgrees`).
- NewFromBase: uses the corrected setters; as written, a base host stored as "%c" is set again as "%25c" (`IriAsWritten.TakeAuthorityAsWritten`, `IriAsWritten.TakeAuthorityAgrees`).
- TakeAuthorityOf: uses the corrected setters (`IriAsWritten.TakeAuthorityAsWritten`, `IriAsWritten.TakeAuthorityAgrees`).
- WithScheme: the corrected scheme check (`IriAsWritten.SchemeAsWritten`, `IriAsWritten.SchemeAgrees`).
- WithUserinfo: the corrected normaliser (`IriAsWritten.UserinfoAsWritten`, `IriAsWritten.UserinfoAgrees`).
- WithHost: the corrected normaliser (`IriAsWritten.HostAsWritten`, `IriAsWritten.HostAgrees`).
- WithPath: the corrected "//" check (`IriAsWritten.PathAsWritten`, `IriAsWritten.PathAgrees`).
- StoredPath: the corrected normaliser; as written, "%41" in a path is stored as "%A" (`IriAsWritten.PathAsWritten`, `IriAsWritten.PathAgrees`).
- WithQuery: the corrected normaliser (`IriAsWritten.QueryAsWritten`, `IriAsWritten.QueryAgrees`).
- WithFragment: the corrected normaliser (`IriAsWritten.FragmentAsWritten`, `IriAsWritten.FragmentAgrees`).
- WithAuthority: the corrected split (`IriAsWritten.AuthorityAsWritten`, `IriAsWritten.AuthorityAgrees`).
- Normalize: the corrected normaliser; as written, a setter may never return (`IriAsWritten.Encoded`, `PctEncoding.TameAgrees`).
- NormalizeExcludes: holds of the corrected normaliser only; as written, the query "%63\xE9" keeps the byte 0xE9 raw (`PctFindings.EarlyStopAsWritten`).
- Construct, Resolve, Against, Merge, MergePath, TakeAuthority, BaseAuthority: built from the corrected setters (`IriAsWritten.ConstructAgrees`, `IriAsWritten.ResolveAgrees`, `IriAsWritten.AgainstAgrees`, `IriAsWritten.MergeAgrees`, `IriAsWritten.TakeAuthorityAgrees`).
- LiteralHostKept: about the corrected split; as written, a bracketed literal holding ':' fails (`IriAsWritten.LoopbackAsWritten`).
- LiteralSplit: about the corrected split, for the same reason.
- SplitRoundTrip: about the corrected split; as written, the host "[::1]" is cut at its first ':' into "[" and the port ":1]" (`IriProperties.AuthoritySplitAsWritten`).
- EncodedSlashes: about the corrected normaliser; as written, "%2F/x" gives "%//x".
- UserinfoSettles: about the corrected normaliser; as written, "%63" is stored as "%c" and then set again as "%25c".
- HostSettles: about the corrected normaliser; as written, "%41" is stored as "%a" and then set again as "%25a".
- PathSettles: about the corrected normaliser; as written, "/%41" is stored as "/%A" and then set again as "/%25A".
- QuerySettles: about the corrected normaliser, for the same reason as UserinfoSettles.
- FragmentSettles: about the corrected normaliser, for the same reason as UserinfoSettles.
- AuthoritySettles: about the corrected split and normaliser, for the same reason as HostSettles.
- ConstructSettled: about the corrected constructor; as written, "http://a/%41" stores the path "/%A", which is not settled. `IriAsWritten.SettledTame` states that what the corrected constructor stores is tame, so the setters as written keep it.
- BaseAuthorityKept: about the corrected setters; it rests on the corrected normaliser's idempotence (`IriAsWritten.TakeAuthorityAgrees` covers the code as written on a settled base).
- ResolveFragment, ResolveWithAuthority, ResolveTakesBase, MergeWithoutPath, MergeWithPath, MergeKeepsAuthority, BaseAuthorityOnly, ResolveMergedPath, ResolveBasePath: about the corrected `absolutize`; `IriAsWritten.ResolveAgrees` states that the code as written gives the same result for a settled base and a faithful reference.
- The parse cache of `parse_iri` (a static array) is not modelled; it only memoises a pure function.
- `__toString` and the magic `__get` that reads `iri` are not modelled. `get_iri` is.
- The getters are field reads (`GetScheme` … `GetFragment`) and carry no contract of their own.
- `Net_IPv6::Compress` and the rest of the package are not part of this model; only the four functions the IRI class reaches are.
- PHP's integer overflow is not modelled: a port of more digits than a PHP int holds is a `nat` here.
- In `checkIPv6`, the loose `$ipv6[$i] >= 0` test is dropped, because every group that passes the other two tests (as modelled) passes it.
- IPv6Check.WellFormedGroup: the loose `==` between the stripped group and dechex is taken as string equality. PHP compares two numeric strings as numbers, so it also accepts groups such as "00001" (four zeros, the last three stripped, and "01" == "1") or " 12" (a leading blank); the model, and so `IPv6Check.IsIPv6Address` and `IPv6Check.GroupIffCanonical`, reject them.
- `(integer)` on an IPv4 piece is the value of its leading digits. `hexdec` ignores bytes that are not hexadecimal digits, as PHP's does.
- When `checkIPv6` finds six good groups and a bad IPv4 part, it falls off its end and returns null. The model reads that as false, which is how the IRI class uses it.
- `substr` at an offset equal to the length is taken as '' (older PHP returns false, which reads as '' where the code uses it).
- `PctEncoding.ReplaceInvalidWithPctEncoding` models non-termination as the outcome `Diverges` rather than as a loop without end.
- The IPv6 check on a bracketed host ignores a "/prefix" inside the brackets, as the source does, so "[::1/64]" is accepted as a host.
- A relative reference with an authority keeps its dot segments, because `set_path` removes them only when a scheme is set. `IriProperties.RelativePathKeepsDots` states this.
- A path emptied by dot removal is stored as '' and not as null. `IriProperties.PathSettles` is therefore stated for non-empty stored paths.
- `IriParse.MatchCompose` is a round trip only for well-shaped groups; groups that no match produces (a path that reads as a scheme, say) are not covered.
- Settledness of every component is not carried through `absolutize` when the reference has an authority: the scheme is set on the parsed reference, whose other components are already settled, so the lemmas state the components one by one instead.
- `IRITest.php:72-73` expect "http://a" for "../.." and "../../"; the code, and the model, give "http://a/" (`ResolveVectors.TwiceUp`), because this revision has no default-path suppression.
- The per-scheme default table and the recomputed `is_valid` of the later revision are not modelled, because this code has neither.

## Findings

| source | as written | input that shows it | evidently intended | confidence | as-written member | corrected member |
|---|---|---|---|---|---|---|
| iri.php:309 | `strspn(..., $position + 1, 2)` is true when only the first of the two bytes is a hexadecimal digit | "f%0o" gives "f%0O" | a lone '%' is escaped as "%25", giving "f%250o" as `IRITest.php:110` expects | not executed | PctFindings.OneHexDigitAsWritten | PctFindings.OneHexDigitCorrected |
| iri.php:325-326 | a decoded triplet is replaced from `$position + 1`, so the '%' stays in front of the byte | "%63" gives "%c" | the triplet becomes the byte, "c", as `IRITest.php:142` expects | not executed | PctFindings.DecodeKeepsPercentAsWritten | PctFindings.DecodeKeepsPercentCorrected |
| iri.php:348 | `dechex` gives one digit for bytes below 0x10, so the triplet is two bytes and `$strlen` overcounts; the loop then never ends | "c\x0Ad" never halts | two-digit triplets, "c%0Ad", as `IRITest.php:115` expects | not executed | PctFindings.LineFeedAsWritten | PctFindings.LineFeedCorrected |
| Net_IPv6/IPv6.php:86-108 | the groups after "::" are counted on the text with its "/prefix" still attached | "1::/8" expands to "1:0:0:0:0:0:0:" | the prefix is set aside before counting, giving eight groups, as `NetIPv6Test.php:75` expects of "2001:4abc:abcd:0:3744::/120" (the corrected expansion leaves the prefix off, as `$uip` does) | not executed | IPv6.PrefixMiscount | IPv6.UncompressAddressGroups |
| iri.php:383-397 | the scheme check looks at the first two bytes only | "ht~p" is accepted as a scheme | every byte after the first is a letter, digit, '+', '-' or '.' | not executed | IriProperties.SchemeCheckAsWritten | IriComponents.WithScheme |
| iri.php:424-432 | the port is split off at the first ':' of the host part | "[::1]" gives host "[" and port ":1]", and set_authority fails | a bracketed IPv6 literal is the host, and the port follows its ']' | not executed | IriAsWritten.LoopbackAsWritten | IriProperties.LoopbackHostKept |
| iri.php:538-551 | the "//" test runs on the path as given, before normalisation and dot removal | with scheme "a", "/.//x" is stored as "//x"; get_iri gives "a://x", which reads back with the authority "x" | the stored path never starts "//" when there is no authority | not executed | IriAsWritten.DotSlashPathAsWritten | IriAsWritten.DotSlashPathCorrected |
| iri.php:325-326 | a decoded triplet shrinks the string by one byte, since `substr_replace` keeps the '%', but `$strlen -= 2` drops the length by two, so the scan stops one byte early | the query "%63\xE9" gives "%c\xE9", with 0xE9 left raw | every byte outside the set is escaped, "c%E9" | not executed | PctFindings.EarlyStopAsWritten | PctFindings.EarlyStopCorrected |
