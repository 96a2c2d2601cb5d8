# Contract SDK: a Dafny model

A model of the deterministic algorithms that a plugin host relies on in this contract SDK, with
proofs of what they decide. Go strings are Dafny strings with one character per byte; Go loops are
methods proved against specification functions; objects that update their fields are classes.

| component | modules | main results |
|---|---|---|
| subject and pattern algebra (`v2/bus`) | `Subjects`, `SubjectLaws`, `PatternLaws`, `PatternCaps`, `BusGrants`, `NamespaceLaws` | `Matches`, `Covers` and `patternsOverlap` decide membership, containment and intersection of sets of subjects; exactly what the caps on length and token count change |
| permission validation (`v2/plugin/validate.go`) | `Permissions`, `PermissionLaws`, `PermissionFindings`, `HostNamespace`, `Diagnostics` | exactly which findings are reported; in a manifest without findings no declared pattern reaches a denied subject or a provider family, none it publishes or subscribes to reaches a host command, and its own namespace reaches no denied subject; exactly when the own namespace reaches a host command |
| service declarations and mounting | `ServiceDeclarations`, `ServeFindings`, `Registrar` | the two spellings of endpoint containment agree; what a registrar holds after any calls |
| document paths and routing | `DocumentPaths`, `DocumentPathLaws`, `DocumentPathSpelling`, `DocumentRouting`, `DocumentRoutingLaws`, `RouteFindings` | the overlap test is exact, a match can be inverted, every escaped spelling of a segment is bound to it, accepted declarations route every path to one panel |
| requires graph | `RequiresCycle`, `Walks` | the coloured search returns a simple cycle just when the graph has a closed walk |
| exposed payload types (`cmd/plugin-typescript`) | `Payloads`, `FieldTags`, `FieldTagLaws`, `DeclaredTypes`, `FirstWalks`, `Exposure`, `ExposureWalk`, `SecretReach`, `ReadonlyMarks`, `ModelNames`, `ModelSet`, `StandingTypes`, `Namesakes` | exactly when `buildModels` succeeds, which secrets it misses and which models it marks readonly, for every set of types, repeated names included; memoised secret search |
| canonical encodings | `Netstrings`, `NetstringLaws`, `SchemaId`, `SchemaIdLaws`, `SchemaContracts`, `GrantsDigest`, `GrantsDigestLayout`, `GrantsDigestLaws`, `RecordSeparation`, `DigestSeparation` | two operations have the same bytes exactly when they declare the same, field for field; independence of order and of Go names; exactly which consents the grants digest tells from every other |
| strict JSON check | `JsonValues`, `TypedValidation`, `CommandLaws` | the recursive descent reads exactly the conforming values |
| decimals and decision results | `Decimal`, `DecimalLaws`, `Decision`, `DecisionLaws` | value-preserving canonical decimals; exactly which results are accepted for a request |
| suggestions and colours | `Points`, `PublisherColors`, `PublisherColorLaws` | the one-edit test against Levenshtein distance; exactly which colour every publisher is given |

`Strings`, `Sorting` and `Utf8` hold the library functions that the code calls; `StringLaws` and
`Utf8Laws` say what they mean for bytes and code points.

## Where the code and its own description part

* model.go:219-220 promises that no reachable secret passes. The models are kept by type name, and
  a type that leads to a different exposed type of its own name takes that type's place. The walk
  meets every type on its first walk: the one that takes, in the order of roots and then of fields,
  the first that leads to it. It reports nothing exactly when the exposed graph has no cycle and no
  faulty field and, of two exposed types of one name, one lies on the first walk to the other
  (`StandingTypes.WalkFailsExactly`, `ModelSet.InOrder`). A name then stands for the one exposed
  type that leads to all others of its name. A build succeeds exactly when the declarations are in
  order in this sense and no root's name leads, from standing type to standing type, to one with a
  secret (`StandingTypes.BuiltExactly`); so a reachable secret is missed exactly when the
  declarations are in order and no root's name leads to a type that holds one
  (`StandingTypes.SecretMissedExactly`). `Namesakes` has the smallest such declarations, and a pair
  that differs in the order of two fields only: one is built over its secret, the other reported
  (`Namesakes.OuterFieldFirst`, `Namesakes.InnerFieldFirst`). Two packages are not needed for them:
  anonymous structs all have the empty name, and an anonymous struct inside another is a namesake
  below a namesake. `union` then drops a name of a successful build exactly when some standing type
  holds a secret (`StandingTypes.UnionDrops`).
* model.go:267 says that the memo stops re-entry and that cycles are rejected already. Cycles of
  types are; cycles of names are what namesakes make. A name is then remembered without a trail
  while it is still searched, and `union` can keep a name from which a secret is reachable. It drops
  only names that leak, and a leaking name that it keeps leads into a cycle with a dropped one on it
  (`SecretReach.Union`); without a leaking name on a cycle it is exact (`SecretReach.UnionExact`).
* validate.go:345-350 says that no plugin implements a host command, and refuses the id "gateway"
  for it. Ids may hold dots: "gateway.v1" has no finding under the subject rules, and its
  own command tree lies inside the host commands (`HostNamespace.GatewayV1`,
  `HostNamespace.UnderGatewayAccepted`). Without findings the own namespace shares a subject with
  the host commands exactly when the trimmed id has at least two tokens, the first being "gateway"
  or "*" (`HostNamespace.OwnReachesHostCommands`).
* digest.go:37-38 says that no two contents collide, and digest.go:101-103 that every rule excludes
  the separator. The digest does not check it, and the rules for services look at neither the queue
  group nor the bytes of an endpoint's name. For every manifest without service findings that has a
  service of two endpoints or more there is another one without service findings, with a single
  endpoint in that service and the same hashed bytes (`DigestSeparation.AcceptedCollide`). A
  consent is told from every other one exactly when each of its services has separator-free fields
  and at most one endpoint, with a point, and each of its streams has one subject and a record in
  which three numbers stand in one place only (`DigestSeparation.ToldFromEveryOther`). Two consents
  that both avoid the separators are told apart whatever they hold
  (`GrantsDigestLaws.PreimageCanonical`).
* points.go:126-130 speaks of one character; the loop counts the byte positions at which a rune of
  `a` starts. The test is edit distance one for every second string just when all runes of the
  first are single bytes (`Points.OneEditExact`).
* The caps on subjects make `Covers` refuse some containments that the caps alone bring about, and
  make the overlap test report some pairs that share no subject short enough; `PatternCaps` says
  exactly which, and `PatternCaps.LongTokenContains` and `PatternCaps.CrossedWordsShareNothing`
  give such pairs.

## Model

| member | source | states |
|---|---|---|
| Subjects.Parse | v2/bus/subject.go:162-207 | the fault reported, in the order the code looks for faults, or none |
| Subjects.ParseMeaning | v2/bus/subject.go:162-220 | no fault exactly for the strings of the subject and of the pattern grammar |
| SubjectLaws.GrammarExactly | v2/bus/subject.go:162-220 | subjects and patterns are 1 to 16 tokens of their kind, spelled out byte by byte, joined by dots to at most 255 bytes |
| SubjectLaws.FaultExactly | v2/bus/subject.go:162-207 | which fault is reported: empty, over a cap, or that of the first faulty token |
| SubjectLaws.MatchesExactly | v2/bus/subject.go:93-112 | a match is position by position with equal length, or up to the first ">" with at least one token more |
| Subjects.Matches | v2/bus/subject.go:93-112 | the index loop decides the recursive match relation |
| Subjects.Covers | v2/bus/subject.go:118-140 | the index loop decides the recursive cover relation |
| Subjects.CoveredByAny | v2/bus/subject.go:143-150 | true exactly when some grant covers the pattern |
| Subjects.MatchedByAny | v2/bus/subject.go:153-160 | true exactly when some grant matches the subject |
| Subjects.PatternsOverlap | v2/plugin/validate.go:444-463 | the index loop decides the recursive overlap relation |
| PatternLaws.CoversExact | v2/bus/subject.go:114-140 | for well-formed patterns p covers q iff every subject q matches is matched by p |
| PatternLaws.CoversSound | v2/bus/subject.go:114-140 | covering passes matches on, for any token lists |
| PatternLaws.EscapeIsSubject | v2/bus/subject.go:118-140 | when p does not cover q, a constructed well-formed subject is matched by q and not by p |
| PatternLaws.CoversReflexive | v2/bus/subject.go:118-140 | every pattern covers itself |
| PatternLaws.CoversTransitive | v2/bus/subject.go:118-140 | covering is transitive |
| PatternLaws.CoversIsMatches | v2/bus/subject.go:93-140 | on concrete subjects covering is matching |
| PatternLaws.OverlapExact | v2/plugin/validate.go:438-463 | two well-formed patterns overlap iff some subject matches both |
| PatternLaws.OverlapTotal | v2/plugin/validate.go:444-463 | the same over arbitrary token lists |
| PatternLaws.CommonIsSubject | v2/plugin/validate.go:444-463 | overlapping patterns have a constructed common subject with no more tokens than the longer one |
| PatternLaws.OverlapSymmetric | v2/plugin/validate.go:444-463 | the order of the two patterns does not matter |
| PatternLaws.CoversOverlaps | v2/plugin/validate.go:444-463 | a covered pattern overlaps what covers it |
| PatternCaps.CoversExactUnderCaps | v2/bus/subject.go:114-140 | with the caps on subjects, containment is covering or one named family: a full pattern ending in ">" under a "*" |
| PatternCaps.CommonShortest | v2/plugin/validate.go:444-463 | no subject of both patterns is shorter, in tokens or bytes, than the constructed one |
| PatternCaps.OverlapExactUnderCaps | v2/plugin/validate.go:444-463 | with the caps, patterns share a subject iff they overlap and the constructed one fits |
| PatternCaps.LongTokenContains | v2/bus/subject.go:114-140 | behind a token of 252 or 253 bytes "*" contains ">" and Covers refuses it |
| PatternCaps.CrossedWordsShareNothing | v2/plugin/validate.go:444-463 | two words of 255 bytes together, crossed with "*", overlap and share no subject |
| PatternCaps.CapsMatter | v2/bus/subject.go:162-207 | one pair of each of these two kinds |
| BusGrants.Grants.Can | v2/bus/identity.go:98-100 | a subject is admitted iff a pattern of the kind's list matches it, and by no list for an unknown kind |
| BusGrants.Grants.CanPattern | v2/bus/identity.go:105-107 | a pattern is admitted iff a listed pattern covers it, and then every subject it matches is admitted |
| BusGrants.CanIsCanPatternOnSubjects | v2/bus/identity.go:98-107 | on concrete subjects the two questions have one answer |
| NamespaceLaws.AdmitsExactly | v2/bus/identity.go:98-100 | a subject is admitted iff a pattern granted for publish, subscribe, request or serve, as asked, matches it |
| NamespaceLaws.OwnAdmits | v2/plugin/manifest.go:300-312 | for an id without wildcards, the own namespace admits exactly the subjects below event and tick, tick and _INBOX, or cmd and svc |
| BusGrants.OwnNamespacePatterns | v2/plugin/manifest.go:316-329 | the own namespace's lists flattened in order without repeats |
| BusGrants.FlattenedOwn | v2/plugin/manifest.go:300-329 | which patterns that is, for every id |
| Permissions.ValidateSubjectPatterns | v2/plugin/validate.go:342-418 | every finding, in the order of the code, added to what the collector held |
| Permissions.RefuseReservedTokens | v2/plugin/validate.go:424-436 | reports the first reserved token and stops the rule there |
| PermissionLaws.NothingReportedMeaning | v2/plugin/validate.go:342-418 | no finding iff no entry is malformed, repeated or reserved and none meets a host command, provider family, own namespace or denied family |
| PermissionFindings.ReportedExactly | v2/plugin/validate.go:342-418 | a finding is reported iff it is one about the id, or about an entry: malformed, repeated, with this first reserved token, restating the own namespace, or reaching this first family of others |
| PermissionFindings.ListExactly | v2/plugin/validate.go:375-417 | the same for one list: every entry is looked at, whatever was found before |
| PermissionLaws.AcceptedNeverReachesDenied | v2/plugin/ineligible.go:49-94 | without findings no subject of a declared or implicit pattern is denied, none of a declared pattern is a provider's, and none of a publish or subscribe pattern is a host command |
| HostNamespace.OwnReachesHostCommands | v2/plugin/validate.go:342-350 | without findings an own pattern shares a subject with the host commands iff the trimmed id has two tokens or more and the first is "gateway" or "*" |
| HostNamespace.UnderGatewayAccepted | v2/plugin/manifest.go:300-329 | every id "gateway." and something printable has no finding and a pattern inside the host commands |
| HostNamespace.GatewayV1 | v2/plugin/validate.go:342-350 | the same at the id "gateway.v1" |
| PermissionLaws.ExemptionAlwaysRestates | v2/plugin/validate.go:377-418 | whatever the own-service exemption lets pass is reported as restating the own namespace |
| PermissionLaws.BlankServiceCoversNothing | v2/plugin/validate.go:342-418 | the service tree of a blank id covers no well-formed pattern |
| ServiceDeclarations.ValidateServes | v2/plugin/validate.go:469-516 | every finding of the service loop, in order |
| ServiceDeclarations.ServicesMeaning | v2/plugin/validate.go:469-516 | no finding iff the trimmed names are present and pairwise distinct and every subject is well formed, unreserved and under the id |
| ServeFindings.ServesExactly | v2/plugin/validate.go:469-516 | a finding is reported iff some service is nameless or named again, or some endpoint of a named one is, or has a subject that does not parse, is reserved or lies outside the trees |
| ServiceDeclarations.PrefixIsCover | v2/plugin/validate.go:494-508 | for an id without wildcards, a string prefix ending in a dot is a cover by the tree pattern |
| ServiceDeclarations.ContainmentAgrees | v2/plugin/manifest.go:300-312 | the prefix test and coverage by the own serves patterns agree on every subject |
| ServiceDeclarations.AcceptedEndpointsMount | v2/plugin/validate.go:469-516 | every endpoint accepted by the validator is one a registrar over the own patterns admits |
| Registrar.Registrar.Mount | v2/plugin/typed.go:637-664 | the fault for each reason, and the endpoint appended exactly when there is none |
| Registrar.Registrar.MountAll | v2/plugin/typed.go:617-664 | any sequence of calls leaves the fold of the admissible first offers |
| Registrar.OfferedIsHeld | v2/plugin/typed.go:617-664 | after any calls the subject of every admissible offer is held |
| Registrar.HeldIsFirstOffer | v2/plugin/typed.go:617-664 | every held endpoint is the first admissible offer of its subject |
| Registrar.HeldInCallOrder | v2/plugin/typed.go:617-664 | what is held after some calls stays a prefix of what is held after more |
| Registrar.MountedAll | v2/plugin/typed.go:617-664 | admissible offers on distinct subjects are all held, in order |
| DocumentPaths.ParseDocumentPath | v2/plugin/validate.go:869-907 | accepts exactly the pattern grammar, and returns the segments |
| DocumentPaths.MatchDocumentPath | v2/plugin/validate.go:918-949 | matches exactly the paths whose once-decoded segments fit, and returns the bindings |
| DocumentPathSpelling.UnescapeExactly | v2/plugin/validate.go:928-932 | a segment decodes to a text iff it writes it byte by byte, each as itself or as "%" and its two hex digits |
| DocumentPathSpelling.EscapeRoundTrip | v2/plugin/validate.go:928-932 | every byte string, all its bytes escaped in lower or in upper case, decodes to itself |
| DocumentPathSpelling.PathnameExactly | v2/plugin/validate.go:920-934 | a pathname is accepted with these decoded segments iff it is spellings of them, each valid UTF-8 without control, separator or traversal |
| DocumentPathSpelling.PatternExactly | v2/plugin/validate.go:869-911 | a pattern parses to these segments iff it is how they are written, and they keep the rules on names, words and the catch-all |
| DocumentPathSpelling.MatchExactly | v2/plugin/validate.go:918-949 | a match iff some values, put in the parameters' places, make the decoded pathname |
| DocumentPathSpelling.ParameterBinds | v2/plugin/validate.go:928-941 | a parameter is bound to the safe segment that stands in its place, however it is spelled |
| DocumentPathSpelling.EscapedBinds | v2/plugin/validate.go:928-941 | so it is when all bytes are escaped, in either case |
| DocumentPaths.DocumentPathsOverlap | v2/plugin/validate.go:953-974 | an error for an invalid pattern, else the comparison of segments |
| DocumentPathLaws.DocumentOverlapExact | v2/plugin/validate.go:951-974 | two valid patterns overlap iff one escaped path is matched by both |
| DocumentPathLaws.DocumentOverlapSymmetric | v2/plugin/validate.go:953-974 | the order of the two patterns does not matter |
| DocumentPathLaws.MatchInvertible | v2/plugin/validate.go:909-949 | a match binds exactly the pattern's names, and substituting them rebuilds the decoded path |
| DocumentPathLaws.MatchDetermines | v2/plugin/validate.go:909-949 | paths with one binding have one decoded form |
| DocumentRouting.ValidateDocumentPaths | v2/plugin/validate.go:976-1015 | every finding of the claim loop, in order, with its early stop |
| DocumentRouting.NothingReportedMeaning | v2/plugin/validate.go:976-1015 | no finding iff the declarations are valid, pairwise disjoint and on claimable panels |
| DocumentRouting.RoutingUnambiguous | v2/plugin/validate.go:976-1015 | without findings a path is matched by at most one declaration of all panels |
| DocumentRoutingLaws.FaultExactly | v2/plugin/validate.go:986-1000 | which refusal a panel meets: none iff the feature is required, the id is one trimmed segment that no other panel carries, and the url is not blank |
| DocumentRoutingLaws.NothingReportedExactly | v2/plugin/validate.go:976-1015 | no finding iff every declared pattern is one, its panel may claim it, and no pathname is matched by two declarations |
| RouteFindings.RoutesExactly | v2/plugin/validate.go:976-1015 | with the feature required, a finding is reported iff some panel is refused so, or some path of a panel is no pattern or shares a pathname with a pattern claimed before |
| RouteFindings.UnnegotiatedExactly | v2/plugin/validate.go:986-991 | without it the first panel with paths is reported and nothing else |
| RequiresCycle.Search.Visit | plugin/compose.go:51-75 | a cycle is found, or the node is finished after all it requires and the stack is as before |
| RequiresCycle.Search.Close | plugin/compose.go:57-67 | the stack from the gray node on, closed, is a simple cycle; the fallback is never reached |
| RequiresCycle.Cycle | plugin/compose.go:42-86 | a simple cycle iff the graph has a closed walk at all, also through nodes that are no keys |
| Walks.WalkDescends | plugin/compose.go:42-86 | in a finishing order every walk runs strictly backwards |
| Walks.FinishedIsAcyclic | plugin/compose.go:42-86 | a finished graph has no closed walk |
| FieldTags.ReadOptions | cmd/plugin-typescript/model.go:180-187 | optional and string exactly when the option occurs |
| FieldTags.WireKindClosed | cmd/plugin-typescript/model.go:95-136 | wire kinds are a closed set, 64-bit integers cross only as strings, exactly the structs other than time.Time are objects |
| FieldTagLaws.TagName | cmd/plugin-typescript/model.go:164-179 | the first part of a tag is the text before its first comma, or all of it |
| FieldTagLaws.TagOption | cmd/plugin-typescript/model.go:180-187 | an option is found iff it stands in the tag behind a comma, up to the next one or the end |
| FieldTagLaws.TaggedName | cmd/plugin-typescript/model.go:164-179 | with a tag "name" or "name,..." a field is called so and nothing else |
| FieldTagLaws.UntaggedName | cmd/plugin-typescript/model.go:164-179 | with no name in its tag it is called by its Go name |
| FieldTagLaws.HiddenName | cmd/plugin-typescript/model.go:164-179 | with "-" in its place, or unexported, it is called nothing |
| FieldTagLaws.WireExactly | cmd/plugin-typescript/model.go:95-136 | what crosses as what: scalars by a table, structs but time.Time as objects, under any pointers and slices |
| FieldTagLaws.DescribedTags | cmd/plugin-typescript/model.go:164-198 | name, optionality, string option and classification as the text of the two tags has them |
| FieldTagLaws.DescribedType | cmd/plugin-typescript/model.go:188-206 | the wire kind, and the struct a field leads to under any pointers and slices |
| FieldTagLaws.DescribedFaults | cmd/plugin-typescript/model.go:188-198 | which faults a field has: no class, an unknown one, a type that does not cross |
| DeclaredTypes.EdgesExactly | cmd/plugin-typescript/model.go:199-206 | the graph has an edge iff a declared field in JSON leads, under pointers and slices only, to that struct, and it is not time.Time |
| DeclaredTypes.RootsExactly | cmd/plugin-typescript/model.go:213-215 | the roots are the structs under the pointers and slices of the given types |
| DeclaredTypes.SecretsExactly | cmd/plugin-typescript/model.go:188-198 | a type holds a secret iff one of its declared fields in JSON has that label |
| DeclaredTypes.FaultlessExactly | cmd/plugin-typescript/model.go:188-198 | a type is faultless iff every declared field in JSON has a known class and a type that crosses |
| DeclaredTypes.DeclarationsDecide | cmd/plugin-typescript/model.go:141-232 | with distinct names a build succeeds iff no walk along declared fields comes back, meets an unsound field or ends at a secret |
| ExposureWalk.Walker.Visit | cmd/plugin-typescript/model.go:147-211 | marks, models, path, genuine problems and finishing order are kept, and what is finished is reachable; while nothing is reported every type was met on its first walk and namesakes are nested, and a first shared name is of two types that are not |
| FirstWalks.MetFirst | cmd/plugin-typescript/model.go:147-211 | an unfinished node met when all that its walk passes by is finished is met on its first walk |
| FirstWalks.FirstExists | cmd/plugin-typescript/model.go:147-211 | without a cycle whatever a root leads to has a first walk |
| FirstWalks.DividedAreApart | cmd/plugin-typescript/model.go:147-211 | and only one, so two nodes off each other's first walk are on no first walk of each other |
| ExposureWalk.Walker.VisitRoots | cmd/plugin-typescript/model.go:213-215 | without problems every root's type is finished |
| Exposure.ComesBackIsCycle | cmd/plugin-typescript/model.go:154-157 | a reported cyclic path is one: the exposed graph has a closed walk |
| ModelSet.BuildModels | cmd/plugin-typescript/model.go:141-232 | the models, names and readonly marks of declarations in order, from no root of which a secret leaks by name; or problems each of which is there, one of the walk among them iff the declarations are out of order |
| ModelSet.SearchSecrets | cmd/plugin-typescript/model.go:217-226 | for every model set, nothing is reported iff no root's name leads to a secret; each report is a genuine trail |
| ModelSet.NoFirstProblem | cmd/plugin-typescript/model.go:141-215 | declarations in order give the walk no problem: no cycle, no faulty field, namesakes nested in the order of roots and fields |
| ModelSet.HiddenIsNested | cmd/plugin-typescript/model.go:159-162 | namesakes hidden one by the other on every walk are nested whatever the order |
| ModelSet.WalkedIsAcyclic | cmd/plugin-typescript/model.go:141-215 | a walk without problems has visited an acyclic graph of faultless types |
| ModelSet.SharersLead | cmd/plugin-typescript/model.go:159-162 | after a walk without problems two types share a name only when one leads to the other |
| ModelSet.NamesDifferExactly | cmd/plugin-typescript/model.go:159-162 | names are distinct iff no exposed type leads to a different one of its name |
| ModelSet.BuildSucceedsExactly | cmd/plugin-typescript/model.go:141-232 | with distinct names a build succeeds iff there is no cycle, no faulty field and no reachable secret |
| ModelSet.BuildDecides | cmd/plugin-typescript/model.go:141-232 | with no namesake below another, success also decides that the names are distinct |
| ModelSet.BuiltUnion | cmd/plugin-typescript/model.go:292-301 | the union of a successful build is all model names, and these are the names of the exposed types |
| ModelSet.BuiltReadonly | cmd/plugin-typescript/model.go:237-258 | with distinct names the readonly models of a successful build are those of the types that a type named by a readonly root leads to |
| StandingTypes.ModelStands | cmd/plugin-typescript/model.go:147-211 | after a walk without problems a name has the model of the exposed type that leads to all its namesakes, whatever the order |
| StandingTypes.BuiltExactly | cmd/plugin-typescript/model.go:141-232 | for every set of types, a build succeeds iff there is no cycle and no faulty field, namesakes are nested, and no root's name leads by standing types to a secret |
| StandingTypes.WalkFailsExactly | cmd/plugin-typescript/model.go:147-215 | the walk reports something iff the declarations are out of order |
| StandingTypes.BuiltAlike | cmd/plugin-typescript/model.go:141-232 | two successful builds of the same declarations are equal in models, names and readonly marks |
| StandingTypes.SecretMissedExactly | cmd/plugin-typescript/model.go:217-226 | a build succeeds over a reachable secret iff the declarations are in order and every type that holds one is led to by no root's name |
| StandingTypes.HiddenSecretsPass | cmd/plugin-typescript/model.go:217-226 | declarations in order build over any secrets that all stand behind a namesake |
| StandingTypes.UnionDrops | cmd/plugin-typescript/model.go:290-301 | the names of a successful build are those of the exposed types, and one of them leaks iff some standing type holds a secret |
| StandingTypes.ReadonlyExactly | cmd/plugin-typescript/model.go:237-258 | a standing type is readonly iff a readonly root's name leads to it |
| Namesakes.NamesakeHidesSecret | cmd/plugin-typescript/model.go:217-226 | a build succeeds although a secret is reachable, for every root whose only field leads to a namesake with a secret field |
| Namesakes.SuchTypesExist | cmd/plugin-typescript/model.go:217-226 | any two types of one name can be declared in that shape |
| Namesakes.OuterFieldFirst | cmd/plugin-typescript/model.go:159-162 | two fields to namesakes, the outer first: the build succeeds and misses the secret |
| Namesakes.InnerFieldFirst | cmd/plugin-typescript/model.go:159-162 | the same fields the other way round: the shared name is reported |
| SecretReach.SecretSearch.Search | cmd/plugin-typescript/model.go:263-288 | for every memo and every graph of names a trail is found iff some walk leads to a secret past no name that was searched in vain before or is still searched; it is genuine, and what is remembered stays so |
| SecretReach.SecretSearch.OwnSecret | cmd/plugin-typescript/model.go:272-277 | a trail iff the type has a secret field itself |
| SecretReach.TrailLeaks | cmd/plugin-typescript/model.go:260-288 | a genuine trail ends at a reachable secret |
| SecretReach.Union | cmd/plugin-typescript/model.go:292-301 | for every model set, a name is dropped only if a secret is reachable past all names searched in vain, and a leaking name kept leads into a cycle that a dropped one is on; all are kept iff none leaks |
| SecretReach.UnionExact | cmd/plugin-typescript/model.go:292-301 | unless a leaking name lies on a cycle of names, exactly the names from which no secret is reachable, in order |
| SecretReach.DescendsHasNoCycle | cmd/plugin-typescript/model.go:290-301 | names that only lead downwards, as distinct ones do, lie on no cycle |
| ReadonlyMarks.ReadonlyWalk.Walk | cmd/plugin-typescript/model.go:239-252 | marks the named model and all it leads to and nothing else |
| ReadonlyMarks.MarkReadonly | cmd/plugin-typescript/model.go:237-258 | the marked models are exactly those a readonly root leads to |
| ModelNames.LeaksByType | cmd/plugin-typescript/model.go:263-288 | with distinct names a secret is reachable by name iff by type |
| ModelNames.RankDescends | cmd/plugin-typescript/model.go:147-211 | with distinct names the graph of names is acyclic |
| SchemaId.Printer.PrintSchema | cmd/plugin-typescript/schemaid.go:72-120 | appends the rendering of the schema tree and restores the path, or the first error |
| SchemaId.Printer.PrintOperation | cmd/plugin-typescript/schemaid.go:54-70 | the operation's atoms, with a response for commands only |
| SchemaId.CanonicalBytes | cmd/plugin-typescript/schemaid.go:54-125 | the hashed bytes are the netstrings of the canonical atoms |
| SchemaId.RenderUnique | cmd/plugin-typescript/schemaid.go:72-120 | a printed schema followed by anything is read in one way |
| SchemaId.UniqueDecodability | cmd/plugin-typescript/schemaid.go:54-120 | equal bytes have equal kind, name, revision, request tree and response tree |
| SchemaIdLaws.SameBytesSameContract | cmd/plugin-typescript/schemaid.go:54-120 | the same for operations over two different model sets |
| SchemaContracts.SchemaShowsFields | cmd/plugin-typescript/schemaid.go:72-120 | a schema's fields are those of the type of its name, by JSON name, each with the name, optionality, nullability, list, wire kind and class declared for it, and its struct's tree below |
| SchemaContracts.SchemaExactly | cmd/plugin-typescript/schemaid.go:72-120 | a type has a schema iff a finite tree stands for it, and it is that tree |
| SchemaContracts.SameBytesSameFields | cmd/plugin-typescript/schemaid.go:24-27 | equal bytes over two model sets: the same operation, with fields that pair off, at every depth, in JSON name, optionality, list, pointer, wire kind and class |
| SchemaContracts.BytesExactly | cmd/plugin-typescript/schemaid.go:20-27 | with distinct JSON names in each struct the bytes are the same iff the operations are, in that sense |
| SchemaContracts.FieldWords | cmd/plugin-typescript/schemaid.go:92-111 | the six words of a field, in order, as its declaration has them |
| SchemaContracts.QuitAtoms | typescript/schemas.json:112-135 | the atoms listed there for one command |
| SchemaIdLaws.BytesForgetNames | cmd/plugin-typescript/schemaid.go:54-120 | reordered fields with distinct JSON names and renamed types leave the bytes as they are |
| SchemaIdLaws.SortRearranged | cmd/plugin-typescript/model.go:303-310 | fields in any order sort to the same order |
| Netstrings.EncodeInjective | cmd/plugin-typescript/schemaid.go:48-51 | netstrings of two atom lists are equal only when the lists are |
| NetstringLaws.AtomExactly | cmd/plugin-typescript/schemaid.go:48-51 | an atom is the length in decimal without a leading zero, a colon, the bytes and the closing byte |
| GrantsDigest.DigestPreimage | v2/plugin/digest.go:39-84 | the hashed bytes, the manifest's own arrays unmodified |
| GrantsDigest.WriteSection | v2/plugin/digest.go:86-95 | writes label, count and the sorted values |
| GrantsDigestLayout.PreimageLayout | v2/plugin/digest.go:39-84 | the algorithm's name and nine sections, each its title, its count and its values in ascending order |
| GrantsDigestLayout.ServiceLayout | v2/plugin/digest.go:47-56 | where the fields of a service and of its endpoints stand in its record |
| GrantsDigestLayout.StreamLayout | v2/plugin/digest.go:58-66 | the same of a stream |
| GrantsDigestLayout.BucketLayout | v2/plugin/digest.go:68-72 | the same of a KV bucket |
| GrantsDigestLayout.StoreLayout | v2/plugin/digest.go:74-78 | the same of an object store |
| GrantsDigestLaws.PreimageExact | v2/plugin/digest.go:39-99 | equal bytes iff each section has the same values with the same counts |
| GrantsDigestLaws.PreimageForgetsOrder | v2/plugin/digest.go:39-95 | permuting any list, nested endpoints and stream subjects included, leaves the bytes as they are |
| GrantsDigestLaws.PreimageCanonical | v2/plugin/digest.go:39-103 | for records free of the separators equal bytes iff equal contents as multisets |
| GrantsDigestLaws.BucketInjective | v2/plugin/digest.go:101-103 | two KV records with one text are equal, separators or not |
| RecordSeparation.ServiceApartExactly | v2/plugin/digest.go:47-56 | a service record is of one service only iff its fields hold no separator and it has no endpoint, or one with a point |
| RecordSeparation.SeveralShared | v2/plugin/digest.go:47-56 | every service of two endpoints or more shares its record with one of a single endpoint |
| RecordSeparation.StreamApartExactly | v2/plugin/digest.go:58-66 | a stream record is of one stream only iff three numbers stand in it at one place and its one subject is not empty and no ordered list |
| RecordSeparation.PlainStreamApart | v2/plugin/digest.go:101-103 | a name without the unit separator and one non-empty subject without either separator are enough |
| DigestSeparation.ToldFromEveryOther | v2/plugin/digest.go:31-38 | no different consent has the same hashed bytes iff every service and every stream is told apart by its record |
| DigestSeparation.AcceptedCollide | v2/plugin/digest.go:101-103 | a manifest without service findings and with a service of two endpoints shares its hashed bytes with another one without service findings |
| TypedValidation.CheckValue | v2/plugin/typed_validation.go:47-114 | succeeds just when the reading function does, and leaves the decoder after the value |
| TypedValidation.CheckMembers | v2/plugin/typed_validation.go:81-97 | the member loop with its table and its seen keys, to the closing bracket |
| TypedValidation.FieldTable | v2/plugin/typed_validation.go:70-80 | the table of JSON names and types |
| TypedValidation.KnownExactly | v2/plugin/typed_validation.go:70-80 | a name is known iff a visible field has it, and stands for the last of them |
| TypedValidation.RecognisesExactly | v2/plugin/typed_validation.go:45-114 | on a value's tokens followed by anything, success iff the value conforms, leaving exactly what followed |
| TypedValidation.ReadIsConforming | v2/plugin/typed_validation.go:47-114 | whatever is read is the tokens of a conforming value |
| TypedValidation.ReadsWhole | v2/plugin/typed_validation.go:34-42 | an input is read to its end iff it is one conforming value |
| TypedValidation.DecodeCommand | v2/plugin/typed_validation.go:27-43 | strict decoding needs at most 64 KiB, one conforming value, the end of the input and Unmarshal's consent |
| CommandLaws.KnownDeclared | v2/plugin/typed_validation.go:70-80 | a name is known with a type iff the last declared field of that name, read off its tag, has it |
| CommandLaws.NullTaken | v2/plugin/typed_validation.go:52-57 | null is taken by pointers and slices |
| CommandLaws.ScalarTaken | v2/plugin/typed_validation.go:108-113 | a scalar is taken by what is, under pointers, no struct, slice or array |
| CommandLaws.ListTaken | v2/plugin/typed_validation.go:98-106 | an array is taken by what is, under pointers, a slice or array whose element type takes each item |
| CommandLaws.ObjectTaken | v2/plugin/typed_validation.go:63-97 | an object is taken by what is, under pointers, a struct that declares each of its distinct keys with a type that takes its value |
| CommandLaws.TaggedMember | v2/plugin/typed_validation.go:67-80 | a key of one field tagged "name" or "name,..." is taken iff it is that name and the field's type takes the value |
| CommandLaws.UntaggedMember | v2/plugin/typed_validation.go:67-80 | the same with the Go name when the tag has none |
| CommandLaws.HiddenMember | v2/plugin/typed_validation.go:67-80 | a hidden field takes no key |
| CommandLaws.DecodeOneMember | v2/plugin/typed_validation.go:27-43 | what strict decoding answers for an object with one key |
| JsonValues.TokensUnique | v2/plugin/typed_validation.go:47-114 | a token stream starts with the tokens of one value at most |
| Decimal.DecimalFromJSONNumber | v2/aidecision/contract.go:345-390 | an accepted number keeps its value in canonical form; accepted iff non-negative, short, of small exponent and with a wire form |
| Decimal.Expand | v2/aidecision/contract.go:362-389 | shifting the point through the digits |
| Decimal.ReadingMeaning | v2/aidecision/contract.go:345-390 | the text made of a valid number denotes mantissa times ten to the exponent, and when there is one |
| Decimal.CanonicalUnique | v2/aidecision/contract.go:345-390 | canonical decimals of one value are one string |
| Decimal.EqualValuesEqualStrings | v2/aidecision/contract.go:345-390 | inputs of equal value give the identical string |
| Decimal.ReadingIdempotent | v2/aidecision/contract.go:345-390 | a canonical decimal is read as itself |
| DecimalLaws.PlainComesTo | v2/aidecision/contract.go:345-390 | a plain decimal, its point behind its last digit, is the integer of its digits |
| DecimalLaws.NumberExactly | v2/aidecision/contract.go:345-357 | the accepted grammar spelled out: a plain decimal, alone or with a letter, a sign or none, and digits |
| DecimalLaws.ScientificComesTo | v2/aidecision/contract.go:349-363 | with either letter and any leading zeros, an exponent moves the value up, or down behind "-", by as much as its digits come to |
| DecimalLaws.ScientificRead | v2/aidecision/contract.go:345-390 | a number with an exponent is read as a text iff the exponent is in bounds and the text is the canonical wire decimal that comes back to the mantissa's value |
| DecimalLaws.ItoaExactly | v2/plugin/digest.go:86-99 | the decimal text of a number is the only one without a leading zero that comes to it |
| Decision.ValidateProbabilities | v2/aidecision/contract.go:415-435 | well-formed values, distinct ids and an exact sum within 1e-6 of one |
| Decision.Accumulate | v2/aidecision/contract.go:415-435 | the exact rational sum and the ids, or the first bad entry |
| Decision.ValidateRequest | v2/aidecision/contract.go:311-326 | the loop over questions accepts iff the request is well formed and its question ids are distinct |
| Decision.ValidateResult | v2/aidecision/contract.go:485-500 | the loop over answers accepts iff the result is well formed and its answer ids are distinct |
| Decision.ValidateChoice | v2/aidecision/contract.go:439-450 | accepts iff confidence and probabilities are well formed and the choice is found among them |
| Decision.ValidateScore | v2/aidecision/contract.go:451-465 | accepts iff score, confidence, probabilities and legend are well formed and the legend's ids distinct |
| Decision.ValidateFor | v2/aidecision/contract.go:504-555 | accepts iff request and result are well formed and each answer fits its question |
| Decision.Complete | v2/aidecision/contract.go:539-549 | equal length and all found is a permutation, both lists being distinct |
| Decision.Pigeonhole | v2/aidecision/contract.go:504-555 | why one direction of containment is enough |
| Decision.Rearranged | v2/aidecision/contract.go:504-555 | probabilities with permuted ids can be put in the order of the criteria |
| Decision.AcceptedChoice | v2/aidecision/contract.go:504-555 | an accepted choice is one of the options and its probabilities are a bijection with them |
| Decision.AcceptedScore | v2/aidecision/contract.go:504-555 | the same for zero-based score levels and the legend, with the score on the question's scale |
| Decision.AcceptedChoiceNumbers | v2/aidecision/contract.go:411-435 | with wire decimals each probability of an accepted choice denotes a number from zero to one and their sum is within 1e-6 of one |
| Decision.AcceptedScoreNumbers | v2/aidecision/contract.go:411-435 | the same of an accepted score, whose value lies between the lowest and the highest level |
| DecisionLaws.QuestionExactly | v2/aidecision/contract.go:262-310 | a question is good iff it asks for exactly one of a choice, a score and a noul, under its kind, within the counts |
| DecisionLaws.AcceptedExactly | v2/aidecision/contract.go:401-555 | an answer is accepted iff it is one to the question: a distribution over the options or levels, adding up to one within a millionth, a choice among the options, a score on the scale under a full legend |
| DecisionLaws.ResultExactly | v2/aidecision/contract.go:485-555 | a result is accepted for a good request iff it names the provider and model asked and answers every question in order |
| Points.IsOneDeletionFrom | v2/plugin/points.go:153-162 | true iff the short string is the long one without one position |
| Points.FirstMismatchDecides | v2/plugin/points.go:153-162 | looking at the first mismatch misses no deletion |
| Points.WithinOneEdit | v2/plugin/points.go:131-151 | what the code calls one edit |
| Points.OneEditIsDistanceOne | v2/plugin/points.go:126-151 | for single-byte runes it is Levenshtein distance one |
| Points.StepExactly | v2/plugin/points.go:131-151 | the loop advances by the width of the code point encoded there, and by one byte where there is none |
| Points.SingleByteExactly | v2/plugin/points.go:131-151 | a valid text has single-byte runes only iff all its code points are ASCII |
| Points.OneEditExact | v2/plugin/points.go:126-151 | it is distance one for every second string iff the first has single-byte runes only |
| Points.SuggestPoint | v2/plugin/points.go:105-124 | the exact, suffix and near-miss suggestion, the first in list order |
| Points.SuggestKnownPoint | v2/plugin/points.go:57-124 | the same over the closed registry: a suggestion is one of its nine names, and each of them is suggested for itself |
| PublisherColors.Allocator.TakeFree | plugin/zone.go:67-77 | the first unused palette colour, the cursor behind it never needed again |
| PublisherColors.AssignPublisherColors | plugin/zone.go:49-89 | the greedy allocation over sorted distinct ids |
| PublisherColors.AllocationKeys | plugin/zone.go:49-61 | exactly the declared non-empty ids get an entry |
| PublisherColors.DistinctColors | plugin/zone.go:78-87 | non-empty colours are of the palette and pairwise distinct |
| PublisherColors.HintKept | plugin/zone.go:45-48 | a hint is kept iff it is in the palette and no earlier id has it |
| PublisherColors.EmptyMeansExhausted | plugin/zone.go:67-77 | an id goes without a colour only when every colour is given |
| PublisherColors.AllocationForgetsOrder | plugin/zone.go:45-48 | the order of declarations that agree on each id does not matter |
| PublisherColorLaws.HintIsFirst | plugin/zone.go:49-65 | an id's hint is the one it declares first |
| PublisherColorLaws.AssignedExactly | plugin/zone.go:45-89 | exactly the trimmed ids that are not blank have an entry, read off the publishers as they are given: the trimmed hint of the first one, if it may be kept, else the first free palette colour, else none |
| PublisherColorLaws.AllocatedExactly | plugin/zone.go:45-89 | an id has its hint when that is in the palette and no earlier id has it, else the first palette colour that no earlier id has, else none |
| Strings.JoinSplit | v2/bus/subject.go:162-207 | joining what was split gives the text back |
| Strings.SplitJoin | v2/bus/subject.go:162-207 | splitting what was joined gives the parts back |
| Sorting.SortForgetsOrder | v2/plugin/digest.go:88-95 | sorting by a key that determines elements forgets their order |
| StringLaws.LeqExactly | v2/plugin/digest.go:88-95 | the order is that of the first different byte, a text before its continuations |
| StringLaws.TrimExactly | v2/plugin/validate.go:342-345 | trimming takes white space off both ends, by code points, and leaves none there |
| Utf8Laws.ValidExactly | v2/plugin/validate.go:928-932 | a text is valid iff it is encodings of scalar values, one after the other |
| Utf8Laws.ControlExactly | v2/plugin/validate.go:928-932 | a control is found iff one of the code points is one |

## Left out

- `plugin/document_paths.go`: the version 1 form of the document-path code is the version 2 code modelled here, with errors in place of findings; it is not modelled a second time.
- `plugin/compose.go` GraphFrom and RequiredIDs: they copy and trim the input of Cycle.
- Diagnostics: wording, severities and labels are not modelled; a finding is its code, place, index and evidence.
- Hashes: SHA-256 and base64 are not modelled; statements about ids and digests are about the hashed bytes.
- SecretReach.Union: over a cyclic graph of names, which of the leaking names on the way into a cycle are searched first, and so kept, depends on the order of names and fields and is not stated as a condition on the declarations.
- RequiresCycle.Search.Run: a Go map has no order, so the outer loop takes the keys in any order.
- Exposure: reflection is not modelled; types are trees of pointers, slices, arrays, named structs and scalars, and a map from struct names to declared fields. Embedded structs are ordinary fields, as in the source.
- ExposureWalk.Walker.VisitFields: reads all field tags before it follows the first field; the reading has no effects, so problems come in the same order.
- Exposure: function-local and anonymous structs are types with an origin of their own, as reflect.Type tells them apart; anonymous ones have the empty name.
- SchemaIdLaws.BytesForgetNames: fields with equal JSON names are outside it, because sort.Slice leaves their order open.
- GrantsDigest.DigestPreimage: patterns are strings, and the five plain lists are arrays shared with the manifest; record lists are sequences.
- Decimal.DecimalFromJSONNumber: the verdict of json.Valid is a parameter, assumed to follow the number grammar on texts of number bytes; an overflow of strconv.Atoi falls under the exponent bound.
- Decision.ValidateFor: the text, identifier, size and structured-content rules are parameters; everything holds whatever they are.
- Decision: rationals are `real`, which is exact for the finite decimals that occur.
- Points.SuggestPoint: lower-casing and trimming of the input happen before the modelled part, and the points are required to be ASCII, as the known ones are.
- Registrar.Registrar: the mutex is taken as making each Mount atomic; the copy of the serves list and the Endpoints accessor are not modelled.
- `v2/plugin/typed.go` Call, servePoint, checkSchema and faultReply: sequential effects on a bus that is not part of this model.
- ServiceDeclarations.ValidateServes: the point name of an endpoint is validated elsewhere and is not part of this model.
- TypedValidation.DecodeCommand: the lexer of encoding/json is a stream of tokens in which misplaced punctuation is a malformed token; the verdict of json.Unmarshal is a parameter.
- TypedValidation.CheckValue: recursion depth is bounded by the input only.
- BusGrants.Grants: key-value, object and stream lists are not modelled.
- Files, archives, sockets, signatures, bus and scheduler interfaces, generated code and text emitters, flat field validators and requirement versions are not modelled.
