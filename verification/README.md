# A verified model of happyDeliver

happyDeliver receives or is given an e-mail message, looks at the DNS records of its sender and at
the verdicts its receiver wrote on it, and stores a report. This project models the algorithms at
its core in Dafny and proves what they promise.

| modules | what they model |
|---|---|
| `Svg*`, `LogoCheck` | the validator of the SVG Tiny Portable/Secure profile: a one-pass stack machine over XML tokens, its merged problem list, and the logo check that lists at most 25 of its problems |
| `Auth*` | the reader of `Authentication-Results` fields (section 2.2 of RFC 8601): the scanner, the pass that glues words together, the header and method parsers |
| `Spf`, `SpfLaws` | the resolution of SPF records through `redirect=` and `include:` (sections 5.2 and 6.1 of RFC 7208): a depth-bounded search of the domain graph with one shared set of visited domains |
| `DmarcWalk` | the DNS tree walk that finds a DMARC record in at most eight queries |
| `Storage`, `Handlers`, `Lifecycle` | the table of reports, the three requests that write to it, and their steps interleaved in any order |
| `Base32`, `TestId`, `TestIdLaws` | test identifiers: the 32-bit Base32 encoder, the grouping by hyphens, the decoder, and the address a test is mailed to |
| `BimiRecord`, `LocalPart`, `BimiParse`, `BimiLookup`, `BimiLaws`, `BimiDiscovery`, `SctList` | BIMI tag lists and records, local-part selectors, discovery with its fallback, and the list of certificate timestamps (section 3.3 of RFC 6962) |
| `WordOverlap`, `ArcChain`, `StaleReload` | the overlap of two texts, the ARC instance check (section 4.2.1 of RFC 8617), and the script that reloads a stale page a bounded number of times |

Code that works by changing state is a class or a method with a loop, proved equal to a function
of its inputs or of the old state; what the code promises is then proved of that function. The laws
that say *exactly* what is answered (`SvgCauses`, `AuthLaws`, `SpfLaws.OwnReports`, `BimiDiscovery`
and the like) are stated without that function's own helpers. The
resolver, the decoder of XML, the regular expressions, the list of public suffixes, the profile
table, the analyzer and the clock are parameters, so every theorem holds for whatever they answer.
Texts are sequences of ASCII characters. Problems, errors and answers are tags, one for each
wording.

Four results are worth naming for what they say about the code:

- `AuthRoundTrip.RoundTrip`: a written header is read back unchanged exactly unless it has a version
  and its identifier ends on `.` or `/` and holds no `=`, or ends on its only `=`; the version then
  becomes part of the identifier (`AuthRoundTrip.VersionSwallowed`).
- `TestId.AddressRoundTrip`: a test address leads back to its test exactly when neither the prefix
  nor the domain holds `@` and the prefix does not begin with an angle bracket.
- `Lifecycle.CleanupRace`: the provenance of a report can be lost, and with it that the report is
  one of its own message, when a cleanup deletes a row between the read and the write of its
  reanalysis and another message takes its test. `Lifecycle.ProvenanceKeptExactly` says of every
  run that provenance has been kept throughout exactly when each reanalysis found, at its write, no
  row of its test, the row it had read, or one created with the same provenance;
  `Lifecycle.OwnMessageExactly` says the like of the message. Runs whose cleanups spare the rows
  being reanalysed lose neither (`Lifecycle.ProvenanceKept`, `Lifecycle.ReportsOwnMessage`).
- `ArcChain.AcceptedExactly`: a chain is accepted when its instance numbers are 1 to *how many
  numbers were found*, not 1 to how many seals there are. What is accepted is a permutation of 1 to
  the number of seals in each kind exactly when every seal carries its number; three headers, none
  with a number, are accepted all the same (`ArcChain.UnnumberedAccepted`).

## Model

| member | source | states |
|---|---|---|
| `SvgValidator.Validator.Add` | pkg/bimi/svgps/validate.go:162-177 | The list and its index stay the merge of everything reported so far, this report included: same texts at the right places, same counts. |
| `SvgValidator.Validator.CheckAttribute` | pkg/bimi/svgps/validate.go:396-449 | One attribute gives the reports and the colours the profile gives it, and keeps the problem list in order. |
| `SvgValidator.Validator.CheckAttributes` | pkg/bimi/svgps/validate.go:396-449 | All attributes of an element, then the required ones it lacks, in the profile's order. |
| `SvgValidator.Validator.CheckFuncIris` | pkg/bimi/svgps/validate.go:460-475 | Every reference of a value that leaves the document is reported, and none other. |
| `SvgValidator.Validator.CheckValue` | pkg/bimi/svgps/validate.go:479-498 | Answers whether the profile allows the value, and reports it when not. |
| `SvgValidator.Validator.PushSkipped` | pkg/bimi/svgps/validate.go:221-223 | Opens a subtree that is not validated, above everything else that is open. |
| `SvgValidator.Validator.OnCharData` | pkg/bimi/svgps/validate.go:205-218 | Text is gathered where allowed, reported where not, ignored when blank or in a skipped subtree. |
| `SvgValidator.Validator.StartRoot` | pkg/bimi/svgps/validate.go:310-332 | The root is judged by its name and namespace; a root without a namespace lets its descendants do without one. |
| `SvgValidator.Validator.PlaceChild` | pkg/bimi/svgps/validate.go:264-307 | Any other element is judged by its namespace, its name and its parent, and told to its parent. |
| `SvgValidator.Validator.StartElement` | pkg/bimi/svgps/validate.go:233-307 | A start tag moves the whole validator by one machine step, its reports appended to those before. |
| `SvgValidator.Validator.EndElement` | pkg/bimi/svgps/validate.go:342-377 | An end tag pops the innermost element only, and reports what needed its whole content. |
| `SvgValidator.Validator.Finish` | pkg/bimi/svgps/validate.go:380-393 | The end of the document reports a missing root or too few colours. |
| `SvgValidator.Validator.Handle` | pkg/bimi/svgps/validate.go:96-107 | Every kind of token moves the validator by one machine step. |
| `SvgValidator.Validate` | pkg/bimi/svgps/validate.go:75-112 | The outcome is no list at all when the decoder fails, else the merge of the machine's whole run. |
| `SvgRefinement.ToldAllCounts` | pkg/bimi/svgps/validate.go:233-307 | What a frame has counted when its element ends (children, mandatory children, the place of the first of them, text) is what its children are. |
| `SvgRefinement.NodeAgrees` | pkg/bimi/svgps/validate.go:203-377 | From any open element, the tokens of any subtree make the machine report what a recursive walk of the subtree does, the foreign-metadata warning once. |
| `SvgRefinement.ForestAgrees` | pkg/bimi/svgps/validate.go:203-377 | So do the tokens of any list of subtrees. |
| `SvgRefinement.StackNeutral` | pkg/bimi/svgps/validate.go:221-253 | Any subtrees leave as many elements open as before, those below the innermost one untouched, and everything untouched inside a skipped one. |
| `SvgRefinement.SkippedReports` | pkg/bimi/svgps/validate.go:189-253 | All that is ever reported of a skipped subtree is its directives and processing instructions. |
| `SvgRefinement.SkippedTellsNothing` | pkg/bimi/svgps/validate.go:233-253 | Nothing in a skipped subtree is counted or paints a colour. |
| `SvgDocument.DocumentAgrees` | pkg/bimi/svgps/validate.go:87-110 | Over any document, prologue and epilogue included, the machine reports what the walk does and remembers whether there is a root, whether it is `svg`, and its colours. |
| `SvgDocument.MachineRefinesWalk` | pkg/bimi/svgps/validate.go:75-112 | For every document, the reports of the run and of its end are those of the recursive walk, in the same order with the same severities and lines. |
| `SvgVerdict.MergeSummarises` | pkg/bimi/svgps/validate.go:162-177 | The problem list has one entry a wording, in the order of first reports, quoting the first and counting all; the counts add up to the number of reports. |
| `SvgVerdict.MergeKeepsErrors` | pkg/bimi/svgps/validate.go:162-177 | Merging neither hides an error nor makes one up. |
| `SvgProfile.ElementNoError` | pkg/bimi/svgps/validate.go:396-498 | No error is reported on the attributes of an element exactly when they conform to the profile. |
| `SvgVerdict.ConformsNoError` | pkg/bimi/svgps/validate.go:203-377 | No error is reported in a subtree exactly when it conforms to the profile's grammar where it stands, tolerated and skipped parts included. |
| `SvgVerdict.ConformanceDecided` | pkg/bimi/svgps/validate.go:75-112 | The problem list of a document holds an error exactly when the document does not conform to the grammar. |
| `SvgCauses.ElementCaused` | pkg/bimi/svgps/validate.go:396-519 | Each wording about attributes is reported as often as the attributes give cause: names with their namespaces, values, discouraged names, references, required names missing. |
| `SvgCauses.WalkCaused` | pkg/bimi/svgps/validate.go:189-377 | Each wording is reported of a subtree as often as the subtree gives cause, the causes counted without the validator's own notions. |
| `SvgCauses.ProblemsExactly` | pkg/bimi/svgps/validate.go:75-112 | For every document and every wording: it is listed exactly when the document gives cause, with the number of causes as its count and the severity of its kind. |
| `SvgTokens.ConformsExactly` | pkg/bimi/svgps/validate.go:75-112 | The grammar and the causes agree: a document conforms exactly when nothing in it gives cause for an error. |
| `SvgTokens.TokensListed` | pkg/bimi/svgps/validate.go:189-201 | For every list of tokens: a DOCTYPE declaration, or an instruction other than the XML declaration, is listed exactly when a token is one, counted once each. |
| `SvgTokens.HoldingRefuses` | pkg/bimi/svgps/validate.go:189-201 | A document holding either anywhere, skipped parts included, does not conform. |
| `SvgTokens.StepSaysItsLine` | pkg/bimi/svgps/validate.go:162-177 | Everything reported on reading a token is reported at its line. |
| `SvgTokens.AttrStaged` | pkg/bimi/svgps/validate.go:405-437 | Of one attribute the reports come in the order of the checks: old spelling, name or value, discouraged, reference, paint targets. |
| `SvgTokens.AttrsInOrder` | pkg/bimi/svgps/validate.go:405-448 | Attributes are reported in the order in which they are written. |
| `LogoCheck.Report` | pkg/bimi/logo.go:152-178 | The cap of 25 never changes the outcome: it fails exactly when the whole list holds an error, and passes exactly when it is empty; the first problems are all listed, and the others summed up among errors when one of them is an error. |
| `LogoCheck.CheckLogoSvgTinyPs` | pkg/bimi/logo.go:138-179 | The check of a logo is skipped exactly when the decoder fails, fails exactly when the document does not conform, and passes exactly when nothing at all gives cause for a problem. |
| `AuthScan.ReadQuoted` | pkg/authresults/scan.go:143-177 | The content and the resting place of a quoted string, which ends at its closing quote, else before the first semicolon, else with the field. |
| `AuthScan.ScanField` | pkg/authresults/scan.go:57-133 | The index-driven loop reads a field as the recursive scanner does, and ends on every field. |
| `AuthParse.GlueWords` | pkg/authresults/scan.go:188-209 | Words are joined into items one after the other exactly as the grammar binds them. |
| `AuthParse.ReadResinfo` | pkg/authresults/parse.go:79-132 | A method is read from its items: its name and version, result, last reason, and properties in order. |
| `AuthParse.ParseField` | pkg/authresults/parse.go:34-65 | A field is read as its first segment, for the identifier, and each other segment on its own. |
| `AuthSegments.ScanFromSplits` | pkg/authresults/scan.go:78-133 | From any scanner state, a field cut at a semicolon after settled text reads as its two halves. |
| `AuthSegments.SegmentsIndependent` | pkg/authresults/scan.go:78-133 | Two fields joined by a semicolon read as the one and then the other, when the first closes its quotes and comments. |
| `AuthSegments.UnclosedQuoteContained` | pkg/authresults/scan.go:135-177 | The same when the first ends within a quote nobody closed and the second holds none. |
| `AuthSegments.TrailingQuoteSettles` | pkg/authresults/scan.go:135-177 | A quote followed by no quote, semicolon or backslash is such an ending, after any settled text. |
| `AuthSegments.ParseJoined` | pkg/authresults/parse.go:49-62 | Appending a field to another adds the methods it holds and changes nothing of those before. |
| `AuthSegments.MethodsAroundSurvive` | pkg/authresults/parse.go:49-62 | Between two parts of a field, a text that closes its quotes and comments, or one with a quote nobody closes there or later, costs neither part a method. |
| `AuthComments.CommentAtTop` | pkg/authresults/scan.go:82-107 | A comment, nested and holding anything, ends the word before it, is set aside as it reads, and has no other effect. |
| `AuthComments.AfterSettled` | pkg/authresults/scan.go:78-133 | Two continuations that read alike at the top level read alike after any settled text. |
| `AuthComments.CommentsTransparent` | pkg/authresults/parse.go:34-65 | Replacing a blank by any comment, anywhere outside quotes and comments, leaves identifier, version, `none` and each method's name, version, result, reason and properties as they were. |
| `AuthRoundTrip.FieldRead` | pkg/authresults/scan.go:57-133 | A field written segment by segment, values quoted and escaped, is scanned back into those segments and words. |
| `AuthRoundTrip.GlueApart` | pkg/authresults/scan.go:188-209 | Words none of which binds to its neighbour are items of their own. |
| `AuthRoundTrip.VersionBinds` | pkg/authresults/scan.go:213-245 | A version binds to the identifier before it exactly when the identifier ends on `.` or `/` and holds no `=`, or ends on its only `=`. |
| `AuthRoundTrip.MethodReread` | pkg/authresults/parse.go:79-149 | Every writable method is read back with its name, version, result, reason and properties, empty values kept apart. |
| `AuthRoundTrip.MethodRoundTrip` | pkg/authresults/parse.go:69-75 | So is one written on its own. |
| `AuthRoundTrip.RoundTrip` | pkg/authresults/parse.go:34-65 | Every writable header is read back the same, exactly unless its identifier swallows its version. |
| `AuthRoundTrip.VersionSwallowed` | pkg/authresults/scan.go:218-245 | The header with identifier `a.` and version `1` is not read back. |
| `AuthOpen.GlueOpen` | pkg/authresults/scan.go:178-256 | However items are broken into words next to a `=`, `.` or `/`, gluing gives them back, as long as a value standing alone is not taken for a key or left waiting. |
| `AuthOpen.ApartIsOpen` | pkg/authresults/scan.go:178-256 | An item with blanks on both sides of both its binding characters is broken that way, its value bare or quoted. |
| `AuthOpen.MethodOpen` | pkg/authresults/parse.go:79-149 | A method written that way, keys and result in any case, is read as the method it is. |
| `AuthOpen.FieldOpen` | pkg/authresults/parse.go:34-65 | A field of such methods, and of `none` in any case, is read as the header it spells. |
| `AuthLaws.UnclosedQuoteRead` | pkg/authresults/scan.go:135-177 | A quoted string nobody closed reads as if it were closed where its segment ends. |
| `AuthLaws.UnclosedCommentRead` | pkg/authresults/scan.go:127-132 | A comment nobody closed takes the rest of the field, and nothing before it. |
| `AuthLaws.ClauseExactly` | pkg/authresults/parse.go:98-129 | What a clause says: nothing without an equals sign or a name, the reason under its own key, else a property, its type before the first dot. |
| `AuthLaws.ClausesAdd` | pkg/authresults/parse.go:98-129 | Properties come in the order of their clauses; the last reason given is the reason. |
| `AuthLaws.MethodReadExactly` | pkg/authresults/parse.go:79-158 | A method is its name and result, trimmed and in lower case, and a version only when a slash and a number follow the name. |
| `AuthLaws.NoMethodRead` | pkg/authresults/parse.go:79-96 | Without an equals sign in its first item, or a name before it, there is no method. |
| `AuthLaws.HeadExactly` | pkg/authresults/parse.go:35-47 | The first segment names the service; the next item is its version only when it is a number. |
| `AuthLaws.SegmentAdds` | pkg/authresults/parse.go:49-62 | Each further segment says none, adds its method, or changes nothing. |
| `Spf.Resolver.SelectSpf` | pkg/analyzer/dns_spf.go:76-84 | How many of the records of an answer are SPF records, and the last of them. |
| `Spf.Resolver.ResolveSpfRecords` | pkg/analyzer/dns_spf.go:43-151 | The recursion computes the specified search, and its queries are, in order, the domains of the records it returns but those refused for their depth. |
| `Spf.Resolver.FollowAll` | pkg/analyzer/dns_spf.go:141-148 | So does resolving a list of domains one after the other with what was visited before. |
| `Spf.CheckSpfRecords` | pkg/analyzer/dns_spf.go:36-39 | A check starts from nothing visited and reports the whole search. |
| `SpfLaws.EveryLookupCounts` | pkg/analyzer/dns_spf.go:43-60 | On any graph of domains, the records without a depth error name distinct domains, which are the visited ones; with the previous rows, as many as there are lookups. |
| `SpfLaws.PreorderUnique` | pkg/analyzer/dns_spf.go:129-150 | A depth-first search has one outcome, so the next row fixes the order of the records. |
| `SpfLaws.RecordsInPreorder` | pkg/analyzer/dns_spf.go:121-150 | Without a depth error, the records come in depth-first preorder, the requested domain first. |
| `SpfLaws.RecordsOwned` | pkg/analyzer/dns_spf.go:65-127 | Every record is the one its own domain's answer gives, and only the first is judged as the main record. |
| `SpfLaws.OwnReports` | pkg/analyzer/dns_spf.go:65-127 | That answer: a failed lookup, no SPF record, several of them and the last, or the only one and what is wrong with it, its qualifier when it is valid. |
| `SpfLaws.QualifierRead` | pkg/analyzer/dns_spf.go:155-171 | The qualifier is that of the `all` a record ends on, `+` when it has none, nothing without one. |
| `SpfLaws.SuccessorsAre` | pkg/analyzer/dns_spf.go:76-148 | A domain leads where the only SPF record it publishes sends: to its redirect if it has one, else to its includes, in order. |
| `SpfLaws.ResolutionComplete` | pkg/analyzer/dns_spf.go:62-150 | Without a depth error, the visited domains are exactly those reachable through the redirect if any, else the includes. |
| `SpfLaws.PolicyFollowed` | pkg/analyzer/dns_spf.go:129-148 | Without a depth error, a visited domain's redirect has been visited, or all its includes when it has none. |
| `SpfLaws.RedirectAlone` | pkg/analyzer/dns_spf.go:129-139 | From a start that redirects, only what its redirect leads to is visited: no include of it is followed. |
| `SpfLaws.DepthErrorHasChain` | pkg/analyzer/dns_spf.go:44-54 | A depth error is never raised but for a chain of distinct domains longer than the bound. |
| `SpfLaws.LongWayRefused` | pkg/analyzer/dns_spf.go:44-54 | Eleven sends in a row through twelve different domains do raise it: the bound is met. |
| `SpfLaws.ShallowIsComplete` | pkg/analyzer/dns_spf.go:44-150 | Where no chain of distinct domains is longer than the bound, resolution is complete. |
| `DmarcWalk.WalkDnsForDmarc` | pkg/analyzer/dns_dmarc.go:157-186 | The loop, its jump over labels and its budget included, visits the planned names in order until one decides. |
| `DmarcWalk.Plan` | pkg/analyzer/dns_dmarc.go:157-186 | The full name, then its suffixes from seven labels (or one fewer than all) down to one: never more than eight names. |
| `DmarcWalk.WalkQueries` | pkg/analyzer/dns_dmarc.go:157-186 | The queries made are those names, the first ones of them, and all of them when nothing is found: the budget cuts nothing short. |
| `DmarcWalk.WalkDecided` | pkg/analyzer/dns_dmarc.go:157-186 | The outcome is a record at a suffix exactly when that suffix is planned, none before it answers, it holds the record, and, for a single label, the record says `psd=y`. |
| `DmarcWalk.WalkFails` | pkg/analyzer/dns_dmarc.go:164-167 | The outcome is an error exactly when the first planned name that does not publish nothing fails with it. |
| `DmarcWalk.WalkFindsNothing` | pkg/analyzer/dns_dmarc.go:168-185 | It is nothing exactly when no planned name publishes anything, or only the single label does and its record does not say `psd=y`. |
| `DmarcWalk.PsdExactly` | pkg/analyzer/dns_dmarc.go:211-218 | A record says `psd=y` when the last of its tags named psd does. |
| `DmarcWalk.PsdOtherwise` | pkg/analyzer/dns_dmarc.go:211-218 | So for `n` and `u`; any other value counts as none. |
| `DmarcWalk.SuffixEnds` | pkg/analyzer/dns_dmarc.go:162 | What is queried is an end of the name, cut at a dot. |
| `DmarcWalk.HostNameRead` | pkg/domainname/domainname.go:42-44 | A name is taken without its case, the blanks around it and its root dot. |
| `DmarcWalk.SuffixDistinct` | pkg/analyzer/dns_dmarc.go:157-186 | No name is queried twice: different places of the plan are different names. |
| `DmarcWalk.SingleLabel` | pkg/analyzer/dns_dmarc.go:157-186 | The test for a dot tells the last label alone from every longer suffix. |
| `Storage.ReportSource` | internal/api/handlers.go:98-108 | Provenance is always one of the two that exist. |
| `Storage.Created` | internal/storage/models.go:33-39 | A table takes a row, at its end, exactly when no other has its test or its key. |
| `Storage.DbStorage.CreateReport` | internal/storage/storage.go:89-101 | A row is added at the end, unless its test or its key is taken, when nothing changes. |
| `Storage.DbStorage.ReportExists` | internal/storage/storage.go:104-110 | Whether a test has a row. |
| `Storage.DbStorage.GetReport` | internal/storage/storage.go:113-123 | The newest row of a test, if it has one. |
| `Storage.DbStorage.UpdateReport` | internal/storage/storage.go:126-135 | The report of every row of the test is replaced and nothing else; said to be missing when there is none. |
| `Storage.DbStorage.DeleteOldReports` | internal/storage/storage.go:138-144 | The rows left are those not older than the time given, in order, the others counted. |
| `Storage.RecentConcat` | internal/storage/storage.go:138-144 | What is kept of two tables together is what is kept of each, in order. |
| `Handlers.EmailReceiver.ProcessEmailBytes` | internal/receiver/receiver.go:69-128 | What a delivery does to the table and answers, in each of its outcomes. |
| `Handlers.ApiHandler.UploadEml` | internal/api/handlers.go:112-182 | What an upload does to the table and answers; nothing at all where uploads are disabled. |
| `Handlers.ApiHandler.ReanalyzeReport` | internal/api/handlers.go:302-357 | What a reanalysis does to the table and answers. |
| `Handlers.DeliveryOutcome` | internal/receiver/receiver.go:81-127 | A delivery adds the analysis of its own message, as received, to a test that has no row; each answer has its exact cause. |
| `Handlers.UploadOutcome` | internal/api/handlers.go:145-175 | An upload adds the analysis of its file, as uploaded; each answer has its exact cause. |
| `Handlers.ReanalysisOutcome` | internal/api/handlers.go:314-353 | A reanalysis gives the row of its test a report of that row's message, test and recorded provenance, and changes no other row. |
| `Handlers.NothingToReanalyze` | internal/api/handlers.go:315-330 | Without such a row it answers so and changes nothing. |
| `Handlers.DeliveryIsItsSteps` | internal/receiver/receiver.go:82-124 | A delivery run from start to end does to the table what its interleavable steps do one by one. |
| `Handlers.UploadIsItsSteps` | internal/api/handlers.go:155-175 | So does an upload. |
| `Handlers.ReanalysisIsItsSteps` | internal/api/handlers.go:314-353 | So does a reanalysis. |
| `Handlers.ReanalysisKeepsSources` | internal/api/handlers.go:332-346 | A reanalysis nothing comes between changes the provenance of no row, and nothing of a row but its report. |
| `Handlers.SecondDeliveryIgnored` | internal/receiver/receiver.go:81-90 | Once a test has a report, another message to it changes nothing and is no failure. |
| `Lifecycle.StepKeepsInv` | internal/storage/storage.go:89-144 | Every step of every request keeps test and key unique, and each reanalysis in flight about the message of the row it read. |
| `Lifecycle.OneRowPerTest` | internal/storage/models.go:33-39 | In every interleaving of deliveries, uploads, reanalyses and cleanups, a test has at most one row. |
| `Lifecycle.RowStable` | internal/storage/storage.go:126-135 | In every interleaving, a row keeps its message, test and date as long as it lives. |
| `Lifecycle.WriteHonest` | internal/api/handlers.go:345-346 | A reanalysis's write keeps every recorded provenance exactly when the test has no row left, or its row is the one read, or one created with the same provenance. |
| `Lifecycle.ProvenanceKeptExactly` | internal/api/handlers.go:332-346 | In every interleaving, whatever cleanups delete: every report has always recorded its row's provenance exactly when every write so far met the condition of the previous row. |
| `Lifecycle.ProvenanceKept` | internal/api/handlers.go:332-346 | When no cleanup deletes a row being reanalysed, every report records the provenance its row was created with, however often it was reanalysed. |
| `Lifecycle.OwnMessageExactly` | internal/api/handlers.go:335-346 | In every interleaving: every report has always been computed from its own row's message exactly when every reanalysis found, at its write, no row or one holding the message it had read. |
| `Lifecycle.ReportsOwnMessage` | internal/api/handlers.go:335-346 | So it is when no cleanup deletes a row being reanalysed. |
| `Lifecycle.CleanupRace` | internal/app/cleanup.go:93-108 | A run of nine steps at whose end a delivered message is recorded as uploaded and carries the report of another message. |
| `Base32.LowAfterByte` | server.js:42-43 | Shifting a byte into the 32-bit accumulator keeps its low bits exact, whatever overflows at the top. |
| `Base32.OrFillsLowBits` | server.js:42 | On 32-bit words, or-ing a byte into a word shifted by eight is an addition. |
| `TestId.BalancedByte` | server.js:42-43 | Pushing a byte keeps the digits written and the bits left over in balance with the bytes read, that one included. |
| `TestId.BalancedDigit` | server.js:44-47 | Taking a digit keeps that balance, with one digit more written. |
| `TestId.BalancedEnds` | server.js:49-51 | The digits of a balanced accumulator, the last one padded, are those of the standard. |
| `TestId.GenerateBase32Id` | server.js:34-61 | The identifier is the standard's Base32 digits of the bytes (section 6 of RFC 4648), a hyphen after every seven. |
| `TestId.UuidToBase32` | internal/utils/uuid.go:34-50 | The server's spelling of an identifier is the same one. |
| `TestId.DecodeInvertsEncode` | internal/utils/uuid.go:54-75 | Decoding inverts encoding on byte strings of any length. |
| `TestId.IdRoundTrip` | internal/utils/uuid.go:54-75 | A spelled identifier has 29 characters and is read back to its 16 bytes. |
| `TestId.AddressRoundTrip` | internal/receiver/receiver.go:158-184 | The address of a test leads back to it exactly when neither prefix nor domain holds `@` and the prefix does not open on an angle bracket. |
| `TestId.BracketsIgnored` | internal/receiver/receiver.go:159-160 | An address between angle brackets names the same test. |
| `TestIdLaws.DigitsAreBits` | server.js:34-51 | The digits of an identifier are its bits in groups of five, most significant first, zeros after the last. |
| `TestIdLaws.HyphenPlaces` | server.js:53-60 | Every eighth character is a hyphen, the others the digits in order. |
| `TestIdLaws.DecodedExactly` | internal/receiver/receiver.go:132-154 | A text is read as an identifier exactly when its letters and digits, hyphens and line breaks apart and in any case, are the 26 of its spelling but for the two spare bits of the last. |
| `TestIdLaws.SixteenOnly` | internal/receiver/receiver.go:145-148 | Nothing but sixteen bytes is ever read. |
| `TestIdLaws.NamedExactly` | internal/receiver/receiver.go:158-184 | An address names a test exactly when, its brackets off, it is the prefix, a spelling of the test, one at-sign and a domain. |
| `TestIdLaws.BracketsTrimmed` | internal/receiver/receiver.go:159-160 | All the angle brackets at both ends are taken off, and nothing else. |
| `BimiRecord.SplitTagList` | pkg/bimi/record.go:66-85 | The tags and the malformed parts of a record, in order, blank parts apart. |
| `BimiRecord.SplitInvertsPrint` | pkg/bimi/record.go:66-85 | Any printed list of trimmed tags is read back the same, with nothing malformed. |
| `BimiRecord.FoldingIgnored` | pkg/bimi/record.go:66-85 | Any white space around a name or a value is no part of it. |
| `BimiLaws.RecordsJoined` | pkg/bimi/record.go:66-85 | Two records joined by a semicolon hold the tags of the one, then those of the other, and so their malformed parts. |
| `BimiLaws.OnePart` | pkg/bimi/record.go:66-85 | A part is the tag its first equals sign makes of it, malformed without one, nothing when blank. |
| `BimiParse.ParseRecord` | pkg/bimi/record.go:106-162 | The loop over the tags keeps the first value of each name, and gives the record as specified tag by tag. |
| `BimiParse.ValidExactly` | pkg/bimi/record.go:106-162 | A record is valid exactly when its first tag is `v=BIMI1`, every non-blank part has `=`, names are distinct, `l` is there, and each prefix is 1 to 63 letters, digits or dashes. |
| `BimiLaws.FieldsRead` | pkg/bimi/record.go:117-141 | The first `l`, `a`, `avp` and `lps` tags set the logo, the certificate, the avatar and the prefixes. |
| `BimiLaws.FieldsAbsent` | pkg/bimi/record.go:106-141 | Fields without a tag are empty, and those of the request are as given. |
| `BimiLaws.TroubleExactly` | pkg/bimi/record.go:143-159 | The error told is the first of five looked for, the first malformed part or prefix in it. |
| `BimiLaws.DuplicatesGrow` | pkg/bimi/record.go:117-128 | Repeated names are told in the order in which they are first repeated. |
| `LocalPart.ParseLocalPartPrefixes` | pkg/bimi/localpart.go:42-52 | The prefixes of a list, trimmed, none when the list is empty. |
| `LocalPart.FirstInvalid` | pkg/bimi/localpart.go:56-75 | A prefix is found exactly when one of them is not 1 to 63 letters, digits or dashes. |
| `LocalPart.NormalizeLocalPart` | pkg/bimi/localpart.go:89-116 | The loop derives the selector specified character by character, or none. |
| `BimiLaws.SelectorExactly` | pkg/bimi/localpart.go:89-116 | The selector is the words of the mailbox between its dashes, however written, in lower case, joined by single dashes, when that is 1 to 63 letters, digits and dashes, and there is none otherwise. |
| `LocalPart.NormalizeCanonical` | pkg/bimi/localpart.go:89-116 | A derived selector is lower-case, 1 to 63 characters long, with no dash first, last or doubled. |
| `LocalPart.CanonicalFixed` | pkg/bimi/localpart.go:89-116 | Every such text is its own selector, so the canonical form is exactly what derivation yields. |
| `LocalPart.NormalizeIdempotent` | pkg/bimi/localpart.go:89-116 | Deriving twice is deriving once. |
| `LocalPart.SubaddressIgnored` | pkg/bimi/localpart.go:89-116 | A `+suffix` makes no difference. |
| `LocalPart.DashesInterchangeable` | pkg/bimi/localpart.go:89-116 | Nor does writing `-`, `.` or `_` for one another. |
| `LocalPart.MatchesLocalPart` | pkg/bimi/localpart.go:127-141 | A selector matches a published list exactly when that is empty or it begins with one of its prefixes, lower-cased; never when none is published. |
| `BimiLookup.LookupLocation` | pkg/bimi/lookup.go:59-87 | A name that does not exist holds nothing; any other failure is an error. |
| `BimiDiscovery.LocationHolds` | pkg/bimi/lookup.go:59-87 | The name queried is absolute, and a location's records are the texts whose first tag is the version, in order. |
| `BimiLookup.ApplyLocalPartSelector` | pkg/bimi/localpart.go:164-194 | The refined record and the one query it costs, none when no selector applies. |
| `BimiLookup.PickMostTelling` | pkg/bimi/lookup.go:195-202 | The first text with a version, else the first one. |
| `BimiDiscovery.MostTellingExactly` | pkg/bimi/lookup.go:191-202 | It is the first text that opens on a version, else the first of all. |
| `BimiDiscovery.VersionExactly` | pkg/bimi/record.go:208-218 | The version a text opens on runs from `v=` to a semicolon, a blank or the end. |
| `BimiLookup.LookupForLocalPart` | pkg/bimi/lookup.go:128-189 | Discovery as carried out, with its queries in order. |
| `BimiDiscovery.DiscoveryExactly` | pkg/bimi/lookup.go:128-189 | What discovery answers without a sender, in each case: the domain's own records, its organizational domain's when it has none, several refused, other texts reported, or nothing. |
| `BimiDiscovery.RefinementExactly` | pkg/bimi/localpart.go:164-194 | With a sender, the record is replaced exactly when it asks for that sender and one valid record stands at the derived selector. |
| `BimiDiscovery.DomainCompared` | pkg/bimi/lookup.go:139-152 | The organizational domain is another one when it differs by more than case, blanks around it and the root dot. |
| `BimiLookup.QueriesBounded` | pkg/bimi/lookup.go:128-189 | Discovery makes one to three queries, its own location first, and turns to the organizational domain only when that one holds no BIMI record. |
| `BimiLookup.FailureIsFinal` | pkg/bimi/lookup.go:133-136 | A lookup that fails at the domain's own location is the only query and the outcome: it never leads to the organizational domain. |
| `BimiLookup.OwnRecordWins` | pkg/bimi/lookup.go:139-152 | A BIMI record at the domain's own location is its answer, usable or not. |
| `BimiLookup.RefinementSafe` | pkg/bimi/lookup.go:123-128 | A local-part changes nothing, or turns a valid record into a valid one of the same domain, under the derived selector, which its prefixes allow. |
| `SctList.ParseSctList` | pkg/bimi/vmc.go:389-409 | The loop over the list gives the outcome of the recursive walk, errors and their places included. |
| `SctList.OutcomeExactly` | pkg/bimi/vmc.go:389-409 | Every error names the first thing wrong and where: the list itself, or what follows so many whole byte strings. |
| `SctList.AcceptsEncodings` | pkg/bimi/vmc.go:389-409 | A byte string is accepted with a count exactly when it is the length-prefixed encoding of a list of that many byte strings. |
| `SctList.DecodedOnce` | pkg/bimi/vmc.go:389-409 | That list is the only one it encodes. |
| `SctList.EncodingUnique` | pkg/bimi/vmc.go:398-407 | Different lists of byte strings have different encodings. |
| `WordOverlap.CountWords` | pkg/analyzer/content.go:843-852 | The map counts every word as often as it occurs. |
| `WordOverlap.CommonWords` | pkg/analyzer/content.go:854-865 | Summing the rarer counts gives the size of the multiset intersection. |
| `WordOverlap.Consistency` | pkg/analyzer/content.go:827-884 | Nothing for an empty text, else the overlap over the average length. |
| `WordOverlap.RatioExactly` | pkg/analyzer/content.go:867-876 | The ratio is twice the words in common for all the words there are. |
| `WordOverlap.RatioSymmetric` | pkg/analyzer/content.go:867-883 | Swapping the texts makes no difference. |
| `WordOverlap.RatioBounded` | pkg/analyzer/content.go:867-883 | The ratio never exceeds one, so the cap never applies in exact arithmetic. |
| `WordOverlap.FullOverlap` | pkg/analyzer/content.go:867-883 | It is one exactly when both texts hold the same words as often. |
| `ArcChain.ExtractInstances` | pkg/analyzer/authentication_arc.go:145-158 | The numbers of the headers that carry one, in order. |
| `ArcChain.ValidateChain` | pkg/analyzer/authentication_arc.go:114-142 | A chain is complete when the three kinds are as many and each covers 1 to the number of instances found. |
| `ArcChain.ParseArcHeaders` | pkg/analyzer/authentication_arc.go:47-86 | The verdict: none without headers, else passed exactly when there is a seal and the chain is complete, its length the number of seals. |
| `ArcChain.Pigeonhole` | pkg/analyzer/authentication_arc.go:114-142 | As many numbers as there are, each of 1 to that among them: exactly a permutation. |
| `ArcChain.ValidExactly` | pkg/analyzer/authentication_arc.go:114-142 | What the code accepts, for all headers: equal numbers of headers, and permutations of 1 to the number of seal instances found. |
| `ArcChain.AcceptedExactly` | pkg/analyzer/authentication_arc.go:114-142 | An accepted chain has every number up to that of its seals once in each kind exactly when every seal carries a number, and every such chain is accepted. |
| `ArcChain.UnnumberedAccepted` | pkg/analyzer/authentication_arc.go:124-141 | One header of each kind, none with a number, is accepted and is no such chain. |
| `ArcChain.ValidIsPermutations` | pkg/analyzer/authentication_arc.go:62-83 | When every header carries its number: accepted exactly when every number up to the chain's length is read from one header of each kind. |
| `StaleReload.Page.Run` | web/routes.go:92-130 | One run of the script: what it leaves in the session's storage and whether it reloads. |
| `StaleReload.RunDecides` | web/routes.go:98-130 | Three reloads an episode of 30 seconds; a fresh address is preferred, and the page as it is is reloaded only when the count could be written. |
| `StaleReload.SessionChained` | web/routes.go:98-113 | Over any session, each reload continues the episode of the one before or opens a new one after its window, and the storage remembers the last. |
| `StaleReload.SixSpan` | web/routes.go:94-113 | Any six reloads in a row take longer than the window. |
| `StaleReload.FiveInAnyWindow` | web/routes.go:92-130 | With storage persisting and a clock that never goes back, at most five reloads fall in any closed 30 seconds. |
| `StaleReload.ThreeAnEpisode` | web/routes.go:92-130 | And at most three belong to any episode. |
| `StaleReload.FiveIsReached` | web/routes.go:92-130 | Five is the least such bound: six visits issue five reloads within one window. |

## Left out

- Characters are ASCII: Unicode white space, case folding and multi-byte characters are not modelled.
- Messages: a problem, error or answer is a tag with its arguments; two tags are taken to read differently, and the wording itself is not modelled.
- XML decoding: the validator is given the tokens with their lines and whether the decoder failed; the theorems about trees are about the token streams of trees.
- The profile table, its regular expressions and its references are parameters; only its `svg` entry is assumed to be there.
- AuthComments.CommentsTransparent: does not compare a method's `Comments` and `Raw`, which a comment changes by design.
- AuthRoundTrip.RoundTrip: writes reasons and property values as quoted strings and everything else as tokens, in lower case where the reader lowers case; it does not cover other spellings of the same header.
- `Lookup`, `Property`, `Find` and `Comment` of `pkg/authresults/authresults.go` only search what was parsed.
- SPF: the validity of a record, its includes and its redirect are functions of its text; the check of the `HELO` name, time limits and scores are not modelled.
- DMARC: the lookup at one name is a parameter; the policy parsed from a record and the scores are not modelled.
- Lifecycle.ProvenanceKept: takes the analyzer to record the provenance it is asked for, and keys of rows never to be drawn twice; each statement on the database is one step, and database failures other than a taken key are aborts.
- The table is a sequence of rows; the restore command of the command line, listings and summaries are not modelled.
- Handlers: multipart forms, size limits, HTTP status codes and logging are not modelled; a request is given the test its address stands for, which `TestId` computes.
- TestId.DecodeInvertsEncode: Go's Base32 library is modelled from RFC 4648, line breaks skipped and the one, three or six digits that complete no byte dropped, as that library does; a library call, not code of the repository.
- WordOverlap.Consistency: exact reals stand for 32-bit floating point, so rounding of the ratio is not modelled; texts come as their normalised words.
- ArcChain: the number of a header is what a reader function finds in it, whatever the regular expression; the DKIM and ARC signatures themselves are not checked.
- BIMI: fetching and checking certificates, their dates, names and logotypes, gzip and the well-formedness check of logos are not modelled; nor is a validator without a resolver, which is an error before anything is looked up.
- SctList: the DER wrapping around the list is not modelled.
- StaleReload: navigation is the action chosen, not what the browser does of it; storage that reads back something else than what was written is not modelled.
- Scores and grades, blacklists, spam reports, content links, the web interface and the rest of `server.js` would only add members that a reading of their code settles.
