# Family tree kinship engine and draft store, in Dafny

This project models the logic of a family-tree web site. The site has four parts:

- **The kinship engine** (`relationship.js`). It reads a person graph: people, a children map and a gender map. It finds the shortest chain of father, mother, child, spouse and sibling links between two people, depth-limited to 9 ids. It writes that chain as a letter code, such as `FBS` for father's brother's son, and rewrites the code to a fixed point with twelve shortening rules. It then turns the code into a kinship term. The term comes from a dictionary of direct, gendered and age-dependent names, compared by birth dates in `dd-MMM-yy` form, or from a possessive expansion such as "Son's-Son".
- **The admin draft store** (`ADM/admin-panel.js`). It holds relations: a map from person id to father, mother and spouse set. The store:
  - keeps spouse links symmetric;
  - imports relations from family rows and regenerates family rows from relations;
  - deletes a person and cleans every reference to them;
  - issues fresh `I####` ids;
  - validates the draft before export;
  - keeps a log that holds at most 300 entries, newest first;
  - builds the maps the viewers read.
- **The tree viewer** (`script.js`). It has a quote-aware CSV parser and a hierarchy builder, which sets each node's display parent, linked children and the roots. It also has an ancestor closure with expansion, a search cursor that cycles through matches, collapse toggles and name captions.
- **The family viewer** (`app.js`). It builds lookup maps and extracts the family subset around a person. In that subset, references to people outside it are removed. It also has name and date formatters, the home-person choice, the sibling set and search suggestions.

Where the source mutates state, the model is imperative:
- The breadth-first search (`KinshipSearch.ShortestCode`), the normaliser loop (`KinshipCode.NormalizeCode`) and the expansion loop (`KinshipCode.ExpandCode`) are methods with loop invariants. So are the CSV character loop (`TreeCsv.SplitFields`), the ancestor stack walk (`TreeHierarchy.AncestorWalk`) and the match loop (`FamilyView.SearchLoop`).
- The admin state is the class `DraftStore.Draft`. The viewer state of `script.js` is the class `TreeView.Viewer`, and the lookups of `app.js` are the class `FamilyView.Lookups`.

Each method is proved equal to a specification function. The properties are then lemmas about those functions.

Ids are strings, and `""` stands for JavaScript's falsy or absent value. Environment state is passed in as parameters:
- the current two-digit year (`yy`, `currentYY`);
- the display language;
- the relationship dictionary;
- the stored home id;
- the people, children and gender maps;
- log time stamps.

The accessors `getPerson`, `getChildrenIds` and `getGender` are plain lookups in the graph value: `KinshipGraph.GetPerson`, `KinshipGraph.GetChildrenIds` and `KinshipGraph.GetGender`. A missing key gives none, the empty list or unknown.

The model follows the code in these details, which are easy to misread:
- `resolveRelationName` returns the raw code when no dictionary branch applies (relationship.js:291), including a gendered entry that meets a person of unknown gender.
- The unknown-gender sibling label is the three-letter string `Sib` (relationship.js:142). The rewrite rules may fire on its `S`, and `expandCode` expands it letter by letter (`KinshipCode.ExpandSib`).
- `markUnsavedLogsAsSaved` adds its summary entry through `addLog`, so the entry goes to the FRONT of the log, not the end.
- `parseIdList` removes duplicates after normalisation, and `getChildrenOf` sorts in plain string order without a locale. The model compares strings by Unicode scalar value. That agrees with JavaScript's UTF-16 code-unit order except between characters above U+FFFF and those in U+E000–U+FFFF.

## Model

| member | source | states |
|---|---|---|
| KinshipGraph.SiblingsMembership | relationship.js:30-42 | x is a sibling of id iff id is a known person, x differs from id, and x is a child of id's father or of id's mother; the list has no duplicates |
| KinshipGraph.SiblingsIrreflexive | relationship.js:30-42 | a person is never their own sibling, and an unknown id has no siblings |
| KinshipGraph.GetSiblings | relationship.js:30-42 | fills the set from the father's then the mother's children, and equals the duplicate-free sibling list |
| KinshipGraph.CollectSet | relationship.js:33-39 | the loop adding ids to a `Set` yields the pool's first occurrences, in order |
| Text.Dedup | relationship.js:33-41 | duplicate-free, with the same members as its input and no longer than it |
| Text.DedupOrder | ADM/admin-panel.js:531 | the elements keep the order of their first occurrence, as a `Set` iterates |
| Text.Trim | ADM/admin-panel.js:39-41 | no longer than its input, and without leading or trailing white space |
| Text.TrimMeaning | ADM/admin-panel.js:39-41 | the result is a slice of the input with only white space outside it; it is empty iff the input is all white space; otherwise both its ends are not white space |
| Text.TrimIdempotent | ADM/admin-panel.js:39-41 | trimming twice equals trimming once |
| KinshipGraph.GetParents | relationship.js:44-51 | at most two entries, none with an empty id, and none for an unknown person |
| KinshipGraph.GetGrandParents | relationship.js:53-73 | at most four entries |
| KinshipGraph.GrandParentsAreParentsOfParents | relationship.js:53-73 | the grandparent ids are exactly the parents of the person's parents |
| KinshipGraph.GrandParentRoles | relationship.js:58-70 | every grandparent carries one of the four paternal/maternal grandfather/grandmother roles |
| KinshipGraph.ParentIds | relationship.js:44-51 | the parent ids are exactly the non-empty father and mother ids |
| KinshipGraph.Labelled | relationship.js:124-143 | each neighbour gets the label its gender selects, in input order |
| KinshipGraph.NeighbourLabels | relationship.js:117-143 | every edge letter is F, M, S, D, C, H, W, P, B, Z or Sib |
| KinshipGraph.DirectRelativesAreNeighbours | relationship.js:117-143 | father, mother, every child, every spouse and every sibling of a known person are search neighbours |
| KinshipGraph.GetRelationshipCode | relationship.js:81-147 | an empty id gives none and identical ids give SELF with path [home]. Otherwise the search finds a result iff some linked path of at most 9 ids exists. A found path is linked, starts at home, ends at target, repeats no id and is a shortest such path. Its code is the normal form of the path's edge letters |
| KinshipSearch.ShortestCode | relationship.js:86-146 | the same result as GetRelationshipCode, for any neighbour function: the FIFO queue and visited set give a shortest, duplicate-free path within the depth cap, or none iff no such path exists |
| KinshipSearch.NextLevel | relationship.js:97-143 | after one breadth-first layer, the discovered set is the ball of the next radius |
| KinshipSearch.ClosedBall | relationship.js:101-104 | a node whose path already has 9 ids is not expanded, and the discovered set stays within the 9-id ball |
| KinshipSearch.Unreachable | relationship.js:146 | an exhausted queue without the target means no path of at most 9 ids exists |
| KinshipSearch.Found | relationship.js:94-99 | a dequeued target's path is linked, duplicate-free and of minimal length |
| KinshipSearch.Dequeue | relationship.js:94-95 | taking the queue head keeps the layered-queue invariant |
| KinshipSearch.Exhausted | relationship.js:146 | an empty queue ends the search with no result |
| KinshipSearch.Start | relationship.js:86-88 | the queue [home] with visited {home} satisfies the search invariant |
| Reach.BallIffWalk | relationship.js:86-146 | v is within radius k of home iff a walk of at most k+1 nodes leads from home to v |
| Reach.ShortestWalk | relationship.js:86-146 | a walk whose length equals v's distance is no longer than any walk to v |
| Reach.WalkInBall | relationship.js:86-146 | the end of any walk from home lies in the ball of the walk's length |
| KinshipCode.NormalizeCode | relationship.js:149-178 | the do-while loop of rewrite passes returns the code's normal form |
| KinshipCode.NormalFormProperties | relationship.js:149-178 | the normal form is never longer than the input, is empty iff the input is, and contains none of the twelve patterns |
| KinshipCode.NormalFormIdempotent | relationship.js:149-178 | normalising twice equals normalising once |
| KinshipCode.FixedPointIffIrreducible | relationship.js:149-178 | a code is its own normal form iff no rule pattern occurs in it |
| KinshipCode.PassShrinks | relationship.js:155-175 | one pass never lengthens a code, shortens it whenever it changes it, and leaves it unchanged iff it is irreducible |
| KinshipCode.ReplaceAllShrinks | relationship.js:156-174 | a global replace by a shorter string never lengthens, and shortens exactly when the pattern occurs |
| KinshipCode.ApplyRulesShrinks | relationship.js:155-174 | a sequence of shortening replacements never lengthens, and is the identity iff no pattern occurs |
| KinshipCode.RulesShrink | relationship.js:156-174 | every one of the twelve replacements is strictly shorter than its pattern |
| KinshipCode.NormalizeFatherSon | relationship.js:157 | the normal form of FS is B |
| KinshipCode.NormalizeCousinChain | relationship.js:163-170 | the documented example FFBSS normalises to B |
| KinshipCode.PassCousinChain | relationship.js:155-175 | one pass rewrites FFBSS to FBS |
| KinshipCode.NoInnerParentIsCanonical | relationship.js:149-178 | a code with no F or M before its last letter is already normal |
| KinshipCode.NormalizeSelf | relationship.js:149-178 | the SELF code is left as it is |
| KinshipCode.ExpandCode | relationship.js:184-204 | the loop's words joined with possessives equal the code's expansion |
| KinshipCode.Words | relationship.js:194-197 | one word per character of the code |
| KinshipCode.Possessive | relationship.js:203 | one part per word |
| KinshipCode.ExpansionSnoc | relationship.js:184-204 | adding a letter to a code of two or more letters appends "'s-" and that letter's word |
| KinshipCode.ExpandSonSon | relationship.js:184-204 | SS expands to "Son's-Son" |
| KinshipCode.ExpandSib | relationship.js:184-204 | the unknown-gender sibling label expands letter by letter, with unmapped letters kept |
| KinshipTerms.GetTerm | relationship.js:11-15 | a falsy entry gives "", a string entry gives itself, a localised entry gives the chosen language's text or else the Telugu text |
| KinshipTerms.GetTermEmpty | relationship.js:11-15 | the term is empty exactly when the entry is absent, empty, or has neither the chosen nor the Telugu text |
| KinshipTerms.MonthIndex | relationship.js:467 | a key maps to its month number iff it is one of the twelve three-letter keys |
| Text.ParseInt | relationship.js:468-471 | a digit string parses to its decimal value |
| Text.ParseIntMeaning | relationship.js:468-471 | after leading white space and an optional `+`, the digits give the value and anything after them is ignored |
| Text.ParseIntNaN | relationship.js:468-471 | text that, after white space, starts with neither a digit nor `+` gives none (NaN) |
| KinshipTerms.FullYear | relationship.js:472-475 | a year of 100 or more is kept. A smaller year keeps its last two digits and lands in the 1900s iff it exceeds the current two-digit year plus ten, otherwise in the 2000s |
| KinshipTerms.PivotWindow | relationship.js:472-475 | a two-digit year is placed in the hundred-year window ending ten years after the current year |
| KinshipTerms.ParseDate | relationship.js:463-478 | an empty string or one that does not have three dash-separated parts gives none; a parsed date has a month below 12 and a full year |
| KinshipTerms.ParseDateText | relationship.js:463-478 | parsing the dd-MMM-yyyy text of a date gives that date back (round trip) |
| KinshipTerms.Prefix3 | relationship.js:467 | the first three characters, or the whole string when shorter |
| KinshipTerms.CompareAge | relationship.js:298-310 | none iff either birth date is missing or unparseable; older iff the first date's day number is smaller, younger iff it is larger |
| KinshipTerms.CompareAgeConverse | relationship.js:298-310 | swapping the two people swaps older and younger |
| KinshipTerms.CompareAgeCalendar | relationship.js:305-309 | for valid dates, older iff the first date is earlier in calendar order, same iff the dates are equal |
| KinshipTerms.DayNumberOrder | relationship.js:305-309 | day numbers order valid dates exactly as calendar order and are equal iff the dates are |
| KinshipTerms.BornInEarlierYear | relationship.js:305-309 | a birth in an earlier year makes the person older |
| KinshipTerms.CompareAgeExample | relationship.js:298-310 | a person born 05-JAN-1975 is older than one born 10-JAN-1980 |
| KinshipTerms.PickByAge | relationship.js:237-287 | older picks the elder term and younger the younger term. Otherwise the default term is used if non-empty, else "elder/younger" |
| KinshipTerms.ResolvePrecedence | relationship.js:209-227 | no result gives "Unknown" and a dictionary miss gives the expansion. A direct name wins, then the gendered name when the target's gender has an entry |
| KinshipTerms.ResolveSelf | relationship.js:184-217 | without a SELF entry, a person's relation to themselves resolves to "Self" |
| KinshipTerms.UnknownGenderGivesCode | relationship.js:223-291 | a gendered entry without an age rule, for a target of unknown gender, gives the raw code |
| KinshipTerms.ShortPathGivesCode | relationship.js:233-291 | the three parent/sibling rules with a path under 3 ids, parent_age_compare with a path under 2, or an unknown rule, give the raw code |
| KinshipTerms.PeddaChinnaRule | relationship.js:233-243 | pedda_chinna compares the target with the person before it on the path and picks pedda-or-elder / chinna-or-younger |
| KinshipTerms.SiblingRules | relationship.js:247-268 | sibling_child and vadina_maradalu compare the person before the target with home and pick elder / younger / "elder/younger" |
| KinshipTerms.DirectAgeRule | relationship.js:272-277 | direct_age compares target with home, falling back to the default term |
| KinshipTerms.ParentAgeRule | relationship.js:281-287 | parent_age_compare compares the person before the target with home, falling back to the default term |
| KinshipTerms.DirectAgeConverse | relationship.js:272-310 | under direct_age, the older person is named by the elder term from one side and the younger term from the other |
| KinshipTerms.SiblingRuleExample | relationship.js:247-268 | an elder sibling born 05-JAN-1975 of a home person born 10-JAN-1980 gives the elder term |
| KinshipTerms.FindRelationship | relationship.js:314-325 | "Unknown" if either person is missing. Otherwise the resolved name of a result that satisfies GetRelationshipCode's contract: SELF for one person, and "Unknown" when no path of at most 9 ids exists |
| KinshipTerms.SiblingTermByAge | relationship.js:480-510 | the sibling term is the brother or sister word chosen by the age comparison of sibling with home |
| KinshipTerms.EitherAgeJoinsWords | relationship.js:494-498 | the unknown-age words are the elder and younger words joined by "/" in every language |
| DraftData.NormalizeId | ADM/admin-panel.js:39-41 | never longer than its input |
| DraftData.NormalizeIdIdempotent | ADM/admin-panel.js:39-41 | normalising an id twice equals normalising it once |
| DraftData.ParseIdList | ADM/admin-panel.js:526-532 | duplicate-free, and x is listed iff it is the non-empty normalisation of some piece between separators |
| DraftData.ParseIdListClean | ADM/admin-panel.js:526-532 | every listed id is normalised and contains no separator |
| DraftData.ParseIdListOrder | ADM/admin-panel.js:526-532 | the ids keep the order in which each first appears among the normalised pieces |
| DraftData.ToCsvCell | ADM/admin-panel.js:239-243 | the cell starts and ends with a double quote |
| DraftData.CsvCellRoundTrip | ADM/admin-panel.js:239-243 | reading a written cell back (strip the quotes, undo doubled quotes) gives the original text |
| DraftData.MaxIdNumber | ADM/admin-panel.js:620-629 | bounds the number of every id of the form I followed by digits, and is 0 or the number of one of them: the largest I-number |
| DraftData.NextId | ADM/admin-panel.js:620-631 | starts with I |
| DraftData.NextIdNumber | ADM/admin-panel.js:620-631 | the new id's number is the largest I-number plus one, zero-padded to at least four digits |
| DraftData.NextIdFresh | ADM/admin-panel.js:620-631 | the new id differs from every existing person id |
| DraftData.NextIdNormal | ADM/admin-panel.js:620-631 | the new id is already normalised |
| DraftData.IdNumberOfNumbered | ADM/admin-panel.js:623-630 | the number read back from I plus zero-padded n is n |
| DraftData.SanitizePersons | ADM/admin-panel.js:982-993 | a permutation of the sanitised rows, sorted by person id |
| DraftData.SanitizedPersonsAreDraftPersons | ADM/admin-panel.js:982-993 | a row is exported iff it is the sanitised form of some draft row |
| DraftData.SanitizePerson | ADM/admin-panel.js:984-991 | sex is F or M, ids are normalised |
| DraftData.KeptContacts | ADM/admin-panel.js:995-1006 | exactly the sanitised contacts of existing persons that have some detail |
| DraftData.SanitizeContacts | ADM/admin-panel.js:995-1006 | a permutation of the kept contacts, sorted by person id, each of an existing person with some detail |
| DraftData.SanitizePhotos | ADM/admin-panel.js:1008-1017 | an id is kept iff it is a person's id with a non-blank photo path, and maps to the trimmed path |
| DraftData.PersonIdsOfRows | ADM/admin-panel.js:1110-1112 | the person id set is exactly the non-empty normalised row ids |
| DraftRelations.EnsureId | ADM/admin-panel.js:43-50 | the id gets an entry and every relation's content is unchanged |
| DraftRelations.Ensure | ADM/admin-panel.js:43-50 | a raw id is normalised first, and an empty one changes nothing |
| DraftRelations.EnsureKeeps | ADM/admin-panel.js:43-50 | ensuring an entry keeps the relations well formed |
| DraftRelations.ChildrenOf | ADM/admin-panel.js:89-96 | exactly the entries whose father or mother is the normalised id, in sorted order |
| Sorting.SortStrings | ADM/admin-panel.js:95 | a permutation of its input in ordinal order |
| Sorting.SortBy | ADM/admin-panel.js:992 | a permutation of its input ordered by the key |
| DraftRelations.SetAdd | ADM/admin-panel.js:537-538 | set insertion: membership is old members plus x, and no duplicates are introduced |
| DraftRelations.AddMutualLinks | ADM/admin-panel.js:534-540 | each of the two becomes the other's spouse; parents and all other people are unchanged |
| DraftRelations.AddSpouseSymmetric | ADM/admin-panel.js:534-540 | empty or equal ids change nothing; otherwise each id is in the other's spouses and nobody else changes |
| DraftRelations.AddSpouseKeepsSymmetry | ADM/admin-panel.js:534-540 | linking keeps the spouse relation symmetric |
| DraftRelations.AddSpouseWellFormed | ADM/admin-panel.js:534-540 | linking keeps the relations well formed |
| DraftRelations.RemoveMutualUnlinks | ADM/admin-panel.js:542-548 | each id loses the other from its spouses; nobody else changes |
| DraftRelations.RemoveSpouseUnlinks | ADM/admin-panel.js:542-548 | empty ids change nothing; otherwise neither id remains in the other's spouses |
| DraftRelations.RemoveSpouseKeepsSymmetry | ADM/admin-panel.js:542-548 | unlinking keeps the spouse relation symmetric |
| DraftRelations.RemoveSpouseWellFormed | ADM/admin-panel.js:542-548 | unlinking keeps the relations well formed |
| DraftRelations.RemoveUndoesAdd | ADM/admin-panel.js:534-548 | unlinking a pair that was not linked before linking restores every spouse set |
| DraftRelations.Unlink | ADM/admin-panel.js:664-668 | the entry no longer names the id as father, mother or spouse |
| DraftRelations.Detach | ADM/admin-panel.js:661-668 | the id's entry is gone, all other entries remain, each with every reference to the id removed |
| DraftRelations.DetachLeavesNoReference | ADM/admin-panel.js:661-668 | no remaining entry has the removed id as father, mother or spouse |
| DraftRelations.DetachKeepsSymmetry | ADM/admin-panel.js:661-668 | deletion keeps spouse links symmetric |
| DraftRelations.DetachWellFormed | ADM/admin-panel.js:661-668 | deletion keeps the relations well formed |
| DraftRelations.BuildRelationsKeys | ADM/admin-panel.js:127-135 | the rebuilt relations are well formed and every person with an id has an entry |
| DraftRelations.BuildRelationsMeaning | ADM/admin-panel.js:127-152 | y is x's spouse iff some family has them as husband and wife. A child's father or mother is empty if no family lists it, otherwise the value its last listing family gives |
| DraftRelations.BuildRelationsSymmetric | ADM/admin-panel.js:127-152 | the rebuilt spouse relation is symmetric |
| DraftRelations.ImportFamiliesParents | ADM/admin-panel.js:136-151 | a child's parent is unchanged when no family sets it, else it is the partner of the last family that sets it |
| DraftRelations.ImportFamiliesSpouses | ADM/admin-panel.js:136-151 | import adds exactly the husband-wife pairs of the families as spouses |
| DraftRelations.ChildIds | ADM/admin-panel.js:89-96 | exactly the listed ids with that father or mother; no duplicates |
| DraftFamilies.GetOrCreate | ADM/admin-panel.js:912-925 | the husband-wife key exists afterwards and existing families are unchanged |
| DraftFamilies.AddChildTo | ADM/admin-panel.js:927-935 | the child is in its parents' family afterwards, and no earlier child is lost |
| DraftFamilies.SpousePass | ADM/admin-panel.js:937-950 | every visited spouse pair has its family, with existing families kept |
| DraftFamilies.OrientBySex | ADM/admin-panel.js:940-948 | a male-female pair is ordered husband first; otherwise the smaller id comes first |
| DraftFamilies.Number | ADM/admin-panel.js:970-978 | family ids run F0001, F0002, … in order, and the rows hold each family's husband, wife and children |
| DraftFamilies.GenerateFamiliesShape | ADM/admin-panel.js:904-980 | ids are consecutive from F0001 and the families are strictly sorted by husband-wife key |
| DraftFamilies.GenerateFamiliesChildren | ADM/admin-panel.js:955-968 | every listed child is an existing person, and the children are strictly sorted |
| DraftFamilies.GenerateFamiliesSound | ADM/admin-panel.js:904-980 | every listed child is a person whose parents give the family's key; each family's key comes from such a child or a visited spouse pair; no family is wholly empty |
| DraftFamilies.GenerateFamiliesChildIff | ADM/admin-panel.js:927-968 | c is a child of a generated family iff c is a person whose father-mother key is that family's key |
| DraftFamilies.OneFamilyPerKey | ADM/admin-panel.js:912-925 | two generated families with the same key are the same family |
| DraftFamilies.GenerateFamiliesKeys | ADM/admin-panel.js:904-980 | a family with key k is generated iff some person has parent key k, or k is not the empty key and some visited spouse pair has key k |
| DraftFamilies.GenerateFamiliesCoversChildren | ADM/admin-panel.js:927-968 | every person is a child of the family keyed by their father and mother |
| DraftFamilies.GenerateFamiliesCoversCouples | ADM/admin-panel.js:937-968 | every visited spouse pair whose oriented key is not the empty key `|` has a family under that key |
| DraftValidation.ErrorCount | ADM/admin-panel.js:1222-1223 | zero iff no issue is an error |
| DraftValidation.ScanIdsErrors | ADM/admin-panel.js:1113-1124 | the person pass reports an error iff some id is empty |
| DraftValidation.ScanIdsDups | ADM/admin-panel.js:1113-1124 | an id is reported duplicated iff it is non-empty and occurs at two positions |
| DraftValidation.ScanIdsPeople | ADM/admin-panel.js:1113-1124 | the known people are exactly the non-empty ids |
| DraftValidation.DupIssuesErrors | ADM/admin-panel.js:1126-1128 | the duplicate pass reports an error iff some id is duplicated |
| DraftValidation.ParentIssuesErrors | ADM/admin-panel.js:1133-1140 | a parent error iff the parent is set and is either missing or the person |
| DraftValidation.SpouseIssuesErrors | ADM/admin-panel.js:1145-1153 | a spouse error iff some spouse is missing or is the person |
| DraftValidation.EntryIssuesErrors | ADM/admin-panel.js:1130-1159 | an existing person's entry has an error iff it has a bad parent or a bad spouse; the same id for father and mother is only a warning |
| DraftValidation.RelationIssuesErrors | ADM/admin-panel.js:1130-1159 | the relations pass has an error iff some entry is bad |
| DraftValidation.RelationIssuesWarns | ADM/admin-panel.js:1154-1157 | an existing person's spouse link that is not reciprocated is reported as a warning |
| DraftValidation.ValidationErrors | ADM/admin-panel.js:1108-1191 | the full report has an error iff the draft has an empty id, a duplicate id, or an existing person with a bad parent or spouse link |
| DraftValidation.ValidationWarnsNotReciprocal | ADM/admin-panel.js:1108-1191 | a one-sided spouse link between existing people is reported |
| DraftValidation.CheckedSpouses | ADM/admin-panel.js:1145-1154 | exactly the spouses that exist and are not the person; validation calls `ensureRelation` on these |
| DraftValidation.ValidationRelationsMeaning | ADM/admin-panel.js:1145-1158 | validation changes no entry's parents or spouses and keeps the map well formed; afterwards every checked spouse has an entry |
| DraftValidation.EnsureIds | ADM/admin-panel.js:1154 | ensuring entries leaves every entry's content unchanged |
| DraftValidation.ContactsOnlyWarn | ADM/admin-panel.js:1161-1175 | the contact pass never reports an error |
| DraftValidation.PhotosOnlyWarn | ADM/admin-panel.js:1177-1186 | the photo pass never reports an error |
| DraftValidation.ValidateBeforeExport | ADM/admin-panel.js:1220-1226 | export goes ahead iff there is no error |
| DraftRuntime.FullName | ADM/admin-panel.js:1236-1238 | a person with an id always gets a non-empty display name |
| DraftRuntime.SpouseList | ADM/admin-panel.js:1240-1243 | exactly the spouses that are existing persons, sorted |
| DraftRuntime.PeopleKeys | ADM/admin-panel.js:1228-1260 | the runtime people map is keyed by exactly the person ids |
| DraftRuntime.PeopleRecord | ADM/admin-panel.js:1228-1260 | each runtime record has its id, the draft's father and mother, exactly the existing spouses in sorted order and the trimmed photo; its name and birth date come from the last person row with that id |
| DraftRuntime.PeopleMapLast | ADM/admin-panel.js:1244-1257 | a map filled record by record holds, for each id, the last record with that id |
| DraftRuntime.ChildrenOfRuntime | ADM/admin-panel.js:1262-1295 | c is under p in the runtime children map iff both are persons and p is c's father or mother |
| DraftRuntime.GendersFromRows | ADM/admin-panel.js:1286-1292 | each gender entry comes from a row with that id and an F or M sex |
| DraftRuntime.GenderMapLast | ADM/admin-panel.js:1286-1292 | filling the map code by code keeps a non-empty id iff some code sets it, with the value of the last one that does |
| DraftRuntime.GendersLastRow | ADM/admin-panel.js:1286-1292 | a person id is in the gender map iff some row of that id has sex M or F, and its gender is that of the last such row |
| DraftRuntime.Push | ADM/admin-panel.js:1275-1280 | the child is appended to the parent's list and no other list changes |
| DraftEdits.CheckParents | ADM/admin-panel.js:562-575 | a save is refused iff a given father or mother is the person or not a person |
| DraftEdits.SexCode | ADM/admin-panel.js:580 | F iff the normalised input is F, else M |
| DraftEdits.KeptSpouses | ADM/admin-panel.js:590-595 | exactly the draft spouses that are other, existing persons |
| DraftEdits.LinkBackEffect | ADM/admin-panel.js:596-599 | each kept spouse gets the person as a spouse; nothing else changes |
| DraftEdits.SavedRelationsMeaning | ADM/admin-panel.js:586-600 | the person gets the form's father and mother and exactly the kept spouses; others keep their parents and gain the person as spouse iff kept |
| DraftEdits.SavedRelationsWellFormed | ADM/admin-panel.js:586-600 | saving keeps the relations well formed |
| DraftEdits.SavedContactsMeaning | ADM/admin-panel.js:602-612 | a contact with some detail is stored for the person, an empty one removes it; other persons' contacts are unchanged |
| DraftEdits.CheckChildren | ADM/admin-panel.js:712-727 | adding is refused iff there are no child ids, or the co-parent is missing or is the person |
| DraftEdits.AdoptChildEffect | ADM/admin-panel.js:738-757 | the child's parent slots are set from the person and the co-parent, who become spouses; other entries keep their parents |
| DraftEdits.AddChildren | ADM/admin-panel.js:729-760 | every child id is either added or reported as failed |
| DraftEdits.AddChildrenMeaning | ADM/admin-panel.js:729-760 | x is added iff it is listed and is another existing person; added children get the parents set; unlisted ids keep their parents |
| DraftEdits.AddChildrenWellFormed | ADM/admin-panel.js:729-760 | adding children keeps the relations well formed |
| DraftEdits.RemoveChild | ADM/admin-panel.js:814-836 | child removal keeps the relations well formed |
| DraftEdits.RemoveChildMeaning | ADM/admin-panel.js:814-836 | the child no longer has the person as father or mother, and keeps its spouses. The change flag is raised iff the person was a parent. Nothing else changes |
| DraftEdits.Prepend | ADM/admin-panel.js:182-194 | the new entry is first, older entries follow in order, and the list is capped at 300 |
| DraftEdits.UnsavedCount | ADM/admin-panel.js:197-205 | zero iff every entry is saved |
| DraftEdits.AllSaved | ADM/admin-panel.js:199-204 | every entry's status becomes saved, nothing else changes |
| DraftEdits.AllSavedIdempotent | ADM/admin-panel.js:197-210 | after marking, no entry is unsaved, and marking again changes nothing |
| DraftStore.FindPerson | ADM/admin-panel.js:52-55 | the first row with the id, or none if no row has it |
| DraftStore.FindPersonHas | ADM/admin-panel.js:52-55 | a person is found by the normalised id iff some row has that id |
| DraftStore.Entry | ADM/admin-panel.js:184-189 | the entry has the sequence number, time and trimmed message, and is unsaved iff requested |
| DraftStore.Fallback | ADM/admin-panel.js:471-476 | keeps the selection, or falls back to the first person or to none |
| DraftStore.Draft.constructor | ADM/admin-panel.js:5-22 | the initial draft: no persons, families, contacts, photos or relations, nothing selected, not dirty, an empty log with sequence number 0 |
| DraftStore.Draft.EnsureRelation | ADM/admin-panel.js:43-50 | the relations become Ensure of the old ones, the result says whether the id was non-empty, and nothing else changes |
| DraftStore.Draft.BuildRelationsFromFamilies | ADM/admin-panel.js:127-152 | the relations become those built from persons and families; nothing else changes |
| DraftStore.Draft.AddSpouseLink | ADM/admin-panel.js:534-540 | the relations become AddSpouse of the old ones; nothing else changes |
| DraftStore.Draft.RemoveSpouseLink | ADM/admin-panel.js:542-548 | the relations become RemoveSpouse of the old ones; nothing else changes |
| DraftStore.Draft.NextPersonId | ADM/admin-panel.js:620-631 | the accumulator loop returns NextId, an id no person has |
| DraftStore.Draft.AddNewPerson | ADM/admin-panel.js:633-650 | appends a blank person with the fresh id, gives it an entry, selects it and marks the draft dirty |
| DraftStore.Draft.SelectPerson | ADM/admin-panel.js:515-524 | selection succeeds iff the id names a person; then the editor is re-rendered, otherwise nothing changes |
| DraftStore.Draft.RenderEditor | ADM/admin-panel.js:471-513 | the state becomes its rendered form: a valid selection is kept or falls back to the first person, and the spouse draft is reloaded |
| DraftStore.Draft.SavePersonChanges | ADM/admin-panel.js:550-618 | the error and new state are those of the save specification |
| DraftStore.Draft.AddChildrenFromInput | ADM/admin-panel.js:707-771 | the reply and new state are those of the add-children specification |
| DraftStore.Draft.RemoveChildLink | ADM/admin-panel.js:814-836 | the change flag and new state are those of the child-removal specification |
| DraftStore.Draft.RemoveSelectedPerson | ADM/admin-panel.js:652-677 | the removal flag and new state are those of the removal specification |
| DraftStore.Draft.RunValidation | ADM/admin-panel.js:1108-1191 | returns the report and stores it as the last validation. The report has an error iff the draft has errors. The relations gain the entries `ensureRelation` creates for checked spouses; nothing else changes |
| DraftStore.Draft.ValidateBeforeExport | ADM/admin-panel.js:1220-1226 | true iff the draft has no validation error; the state changes as in a validation run |
| DraftStore.Draft.SyncRuntimeMaps | ADM/admin-panel.js:1262-1295 | every person gets an entry, and the returned graph is the runtime graph of the draft |
| DraftStore.Draft.AddLog | ADM/admin-panel.js:182-195 | the sequence number goes up by one and the entry is put first in the capped log |
| DraftStore.Draft.MarkUnsavedLogsAsSaved | ADM/admin-panel.js:197-210 | returns the number of unsaved entries; if any, all become saved and one saved entry is added in front, else nothing changes |
| DraftStore.Draft.MarkLoop | ADM/admin-panel.js:199-204 | the loop marks every entry saved and counts the entries that were unsaved |
| DraftStore.Draft.ClearLogs | ADM/admin-panel.js:182-195 | the log becomes the single "Cleared action logs." entry with sequence number 1 |
| DraftStore.RenderedMeaning | ADM/admin-panel.js:471-513 | rendering keeps a valid selection, else selects the first person; relations keep their content; the spouse draft is loaded from the selected person |
| DraftStore.AddNewPersonMeaning | ADM/admin-panel.js:633-650 | the persons gain one blank row with a fresh id, which is selected and has an entry; relations keep their content |
| DraftStore.SaveRefused | ADM/admin-panel.js:550-576 | saving reports a missing person iff none is selected; every refusal before the relation edit leaves the draft unchanged |
| DraftStore.SaveMeaning | ADM/admin-panel.js:550-618 | a successful save edits the selected row, sets its parents from the form and its spouses to the kept ones, and links each kept spouse back |
| DraftStore.AddChildrenReplyRefusals | ADM/admin-panel.js:707-727 | no selection and no child ids are reported as such, and any refusal leaves the draft unchanged |
| DraftStore.AddChildrenReplyMeaning | ADM/admin-panel.js:707-771 | the reported successes are the listed existing other persons, who get the parents set. Other ids keep their parents. The draft is dirty iff it was or some child was added |
| DraftStore.RemoveDecision | ADM/admin-panel.js:652-660 | removal happens iff it is confirmed and the selection names a person; otherwise nothing changes |
| DraftStore.RemoveMeaning | ADM/admin-panel.js:661-669 | after removal the id is in no person row, no contact and no relation reference, and every other entry is unlinked from it |
| DraftStore.MarkedLeavesNoneUnsaved | ADM/admin-panel.js:197-210 | after marking and adding a saved entry, no entry is unsaved |
| DraftStore.SaveKeepsInv | ADM/admin-panel.js:550-618 | saving keeps the store invariant |
| DraftStore.AddChildrenKeepsInv | ADM/admin-panel.js:707-771 | adding children keeps the store invariant |
| DraftStore.RemoveKeepsInv | ADM/admin-panel.js:652-677 | removal keeps the store invariant |
| DraftStore.LinkBackLoop | ADM/admin-panel.js:596-599 | the loop over the kept spouses links each back to the person |
| DraftStore.ChildrenLoop | ADM/admin-panel.js:729-760 | the loop over the child ids gives the added and failed outcome of the add-children specification |
| DraftStore.DetachAll | ADM/admin-panel.js:661-668 | the loop over every relation entry gives the deletion |
| TreeCsv.SplitFields | script.js:136-149 | the character loop with the in-quote flag yields the line's fields |
| TreeCsv.FieldsHaveNoQuote | script.js:140-141 | no field contains a double quote |
| TreeCsv.PlainFields | script.js:136-149 | without quotes, the fields are the trimmed comma-separated pieces |
| TreeCsv.QuotedFieldKeepsCommas | script.js:136-149 | a final quoted field keeps its commas and loses its quotes |
| TreeCsv.PidList | script.js:156-158 | duplicate-free, and exactly the non-empty trimmed comma pieces |
| TreeCsv.PidListClean | script.js:156-158 | every spouse id is non-empty and trimmed |
| TreeCsv.PidListOrder | script.js:156-158 | the spouse ids keep the order in which each first appears among the trimmed non-blank pieces |
| TreeCsv.RowOf | script.js:151-159 | no row iff fewer than two fields; otherwise id, name and spouse list come from fields 0, 1 and 4 |
| TreeCsv.ParseCsv | script.js:129-164 | the parse loop returns the rows of the text |
| TreeCsv.ParseLines | script.js:132-163 | the line loop returns the rows of the lines |
| TreeCsv.ParseLine | script.js:133-161 | one line yields its row or nothing |
| TreeCsv.LineRowsMeaning | script.js:132-163 | a row is produced iff some line yields it |
| TreeCsv.LineRowYields | script.js:133-161 | a line's row list contains r iff the line yields r |
| TreeHierarchy.InitialMap | script.js:166-177 | the map has exactly the rows' ids |
| TreeHierarchy.InitialMapFresh | script.js:166-177 | every node starts collapsed, without parent or children, holding its row |
| TreeHierarchy.ParentIds | script.js:181-182 | duplicate-free existing fid/mid, at most two, father first |
| TreeHierarchy.HierarchyNodes | script.js:166-221 | nodes are exactly the row ids, all collapsed, each holding its row |
| TreeHierarchy.HierarchyRoots | script.js:179-194 | the roots are the rows without an existing parent, in row order |
| TreeHierarchy.HierarchyChildren | script.js:179-194 | a node's children are the rows whose display parent it is, in row order |
| TreeHierarchy.HierarchyParents | script.js:183-190 | each node's parents and display parent are computed from its row |
| TreeHierarchy.HierarchyPlacement | script.js:179-194 | each node is a root iff it has no existing parent, and otherwise is a child of exactly its display parent |
| TreeHierarchy.HierarchyLinked | script.js:198-218 | a node's linked children are the rows with both parents present whose mother it is |
| TreeHierarchy.HierarchyLinkedPlacement | script.js:198-218 | with both parents present, the child sits under the father and is linked under the mother only |
| TreeHierarchy.RenderableChildren | script.js:223-237 | duplicate-free, exactly the non-empty ids among children and linked children |
| TreeHierarchy.RenderableDirectFirst | script.js:223-237 | the direct children come first, in order |
| TreeHierarchy.HierarchyRenderable | script.js:166-237 | a node renders a child iff it is that child's display parent or its linked mother; with both parents present, iff it is father or mother |
| TreeHierarchy.AncestorWalk | script.js:434-473 | the stack walk returns exactly the ancestors (the node included) and exactly the nodes it raised, and terminates on cycles |
| TreeHierarchy.WalkEnd | script.js:455-473 | at the end of the walk the lineage set is the ancestral closure |
| TreeHierarchy.RaisedAncestral | script.js:434-453 | every expanded node is an ancestor |
| TreeHierarchy.Opened | script.js:446-449 | exactly the raised nodes are uncollapsed, everything else is kept |
| TreeHierarchy.OpenedIsExpanded | script.js:434-453 | opening the raised set is the ancestor expansion |
| TreeHierarchy.KeyOrder | script.js:545 | the map's key list is duplicate-free and holds exactly the row ids |
| TreeView.ToggledSet | script.js:288-296 | flips the id's membership, keeps all others, and ignores an empty id |
| TreeView.ToggledSetTwice | script.js:288-296 | toggling twice restores the set |
| TreeView.ToggledCollapse | script.js:239-244 | flips only the id's collapsed flag, if the id is present |
| TreeView.ToggledCollapseTwice | script.js:239-244 | toggling twice restores the map |
| TreeView.SearchResults | script.js:535-538 | the ids with a name that contains the query in lower case |
| TreeView.Advance | script.js:542-543 | the next index, wrapped to 0 at the end and always below the count |
| TreeView.RepeatedCounts | script.js:542-543 | repeating the query k times from 0 visits index k while k is below the count |
| TreeView.RepeatedPeriodic | script.js:542-543 | the cursor has period equal to the result count |
| TreeView.FormatNameWords | script.js:272-281 | a multi-word name gives all words but the last, ".", and the last word's first character |
| TreeView.FormatNameOneWord | script.js:272-281 | a single-word name is returned unchanged |
| TreeView.GetInitial | script.js:283-286 | at most one character, and "?" for an empty name |
| TreeView.GetInitialWords | script.js:283-286 | the upper-case first letter of the first word |
| TreeView.DisplayNamesMeaning | script.js:485-489 | never empty; "N/A" if no id names a node; a single named node gives its name |
| TreeView.HomeNode | script.js:38-45 | the stored id when it names a node |
| TreeView.FirstNamed | script.js:43 | the first key whose node has the home member name, or none if no node has it |
| TreeView.Viewer.constructor | script.js:7-12 | empty viewer state with a valid cursor |
| TreeView.Viewer.BuildHierarchy | script.js:166-221 | the node map, roots and key order become those of the hierarchy of the rows; the cursor and toggles are unchanged |
| TreeView.FirstPass | script.js:167-177 | the first `forEach` builds the initial node map |
| TreeView.SecondPass | script.js:179-194 | the second `forEach` gives each row its parents and attaches it to its display parent or to the roots |
| TreeView.ThirdPass | script.js:196-218 | the third `forEach` pushes each child with both parents into the other parent's linked children |
| TreeView.Viewer.LoadRows | script.js:33-35 | the node map, roots and keys become those of the rows' hierarchy; the toggles and the search state are unchanged |
| TreeView.Viewer.LoadCsv | script.js:129-221 | the state becomes the hierarchy of the parsed text, with no focus |
| TreeView.Viewer.ToggleNode | script.js:817-832 | the installed wrapper: `id` becomes the active focus and the node map becomes its toggled-collapse (script.js:239-244); the other viewer state is unchanged |
| TreeView.Viewer.ToggleSpouseParents | script.js:288-296 | the expanded set becomes its toggle; nothing else changes |
| TreeView.Viewer.ExpandAncestors | script.js:434-453 | the node map becomes its ancestor expansion |
| TreeView.Viewer.FocusNode | script.js:513-529 | sets the focus and expands the node's ancestors |
| TreeView.Viewer.LocateNode | script.js:555-561 | an unknown id changes nothing; otherwise the node is uncollapsed, focused and its ancestors expanded |
| TreeView.Viewer.LocateHome | script.js:38-45 | locates the home node if there is one, else changes nothing |
| TreeView.Viewer.SearchNode | script.js:531-553 | an empty name changes nothing. A new query recomputes the results and sets the index to 0; a repeat advances it with wrap-around. With results, the index is in range and the current result is focused |
| TreeView.Viewer.LineageIds | script.js:455-473 | none for an unknown node, otherwise exactly the ancestral closure |
| FamilyView.Lookups.BuildLookups | app.js:235-254 | the people and children maps become those folded from the people in order |
| FamilyView.Lookups.GetFamilySet | app.js:292-381 | returns the family subset of the current maps |
| FamilyView.PeopleMapKeyed | app.js:237-239 | every person's id is a key, every key maps to a person with that id |
| FamilyView.PeopleMapLastWins | app.js:237-239 | the last person with an id is the one kept |
| FamilyView.ChildrenMapMeaning | app.js:241-251 | a parent has a children list iff some person names it as father or mother; the list is those persons in order |
| FamilyView.ChildIdsOfMembers | app.js:241-251 | c is listed under x iff some person with id c has x as father or mother |
| FamilyView.AddNodes | app.js:305-309 | the order gains exactly the known ids |
| FamilyView.AddNodesDistinct | app.js:305-309 | adding ids through the map keeps each id at most once |
| FamilyView.FamilyIdsMeaning | app.js:292-325 | the center comes first, no id repeats, and x is in the set iff it is a known person among the center, its parents, spouses and children |
| FamilyView.FamilySetMeaning | app.js:292-381 | empty iff the center is unknown. Otherwise one node per family id, in order, and every kept spouse, father and mother reference points inside the set |
| FamilyView.SanitisedKeeps | app.js:330-344 | sanitising keeps id, name, birth and image, and keeps exactly the spouses inside the set |
| FamilyView.SanitisedInside | app.js:330-344 | sanitised spouse, father and mother references lie in the set or are empty |
| FamilyView.FamilySetOf | app.js:292-381 | the clone-and-sanitise loop returns the family subset |
| FamilyView.FamilyIdsOf | app.js:292-325 | the insertion-ordered map loop returns the family ids |
| FamilyView.NodeInitialsAgree | app.js:349-409 | without an image the node initials equal getInitials |
| FamilyView.InitialsOfWords | app.js:404-409 | a multi-word name gives the upper-case first and last initials |
| FamilyView.LabelOfWords | app.js:361-418 | a multi-word name gives all words but the last, ".", and the upper-case surname initial |
| FamilyView.CaptionsOfWord | app.js:404-418 | a single word is its own label and its initial is its upper-case first letter |
| FamilyView.FullYear | app.js:391-396 | a year of 100 or more is kept; a smaller one lands in the 1900s iff it exceeds the current two-digit year plus ten, otherwise in the 2000s |
| FamilyView.FormatDateParts | app.js:383-402 | a string without three dash parts is unchanged; otherwise day and month are kept and the year becomes the one `parseInt` reads (after white space and `+`), expanded to four digits, or NaN |
| FamilyView.FormatDateOfParts | app.js:386-398 | day-month-year with no dash inside the parts formats to the same day and month and the year as read by `parseInt` (white space and `+` skipped) and expanded |
| FamilyView.YearTextReads | app.js:389-398 | the printed year parses back to the expanded year, and a printed NaN parses to none |
| FamilyView.FormatDateIdempotent | app.js:383-402 | formatting a formatted date changes nothing |
| FamilyView.FindByName | app.js:724 | the first person with the name, or none if no person has it |
| FamilyView.HomePersonMeaning | app.js:721-728 | the stored id if known; else the first person named SRIKANTH DHARMAVARAM; else the first person; none only for an unknown stored id and no people |
| FamilyView.SiblingIds | app.js:477-485 | duplicate-free, without the person, exactly the children of the father or mother |
| FamilyView.SiblingsShareParent | app.js:477-485 | x is a sibling iff x is another person who has the person's father or mother as a parent |
| FamilyView.HandleSearch | app.js:669-684 | the loop returns the suggestions for the typed text |
| FamilyView.SearchLoop | app.js:677-683 | the loop with the early break returns the first twenty matches |
| FamilyView.SuggestionsMeaning | app.js:669-684 | at most 20; none for a query of under two characters; every suggestion matches; they are the first matches in order, and all matches when fewer than 20 |

## Left out

- DOM and UI rendering is not modelled: tree HTML, modals, chips, status texts, report HTML and the PWA install prompts. `generateRelationshipReport` is only a consumer of `findRelationship`. Its name lookup `safeName` (relationship.js:25-28) only labels report entries, so it is not modelled either.
- Mouse, touch, drag and long-press handlers, `setTimeout` and `requestAnimationFrame` are not modelled. They are interaction and timing only. So the early returns of the installed `toggleNode` wrapper after a drag or a long press (script.js:817-829) are not modelled either.
- The runtime record fields `Death`, `Address`, `email`, `phone` and `note` (ADM/admin-panel.js:1251-1255) are not modelled. Only the profile view shows them.
- The admin search override (ADM/admin-panel.js:1313-1358) is not modelled. It is an input handler that fills the suggestion list in the DOM.
- Sorting.SortBy and Sorting.SortStrings: the contracts state a sorted permutation but not the stability of JavaScript's `Array.prototype.sort`. Elements with equal keys may come in either order.
- The FamilyTree.js library (app.js:620-660) is a foreign library whose code is not part of this model.
- `fetch`, `localStorage`, `FileReader` and Blob downloads are I/O. The stored home id, the stored logs and the loaded data are parameters instead. `persistLogs`, `hydrateLogsFromStorage` and `exportLogsCsv` are not modelled.
- csv_to_json.py is file-to-file plumbing, and sw.js is service-worker caching. Neither is part of this model.
- `new Date()` becomes the current two-digit-year parameter, and the log time stamp a time parameter. The language becomes a parameter, and so do the dictionary and the global maps.
- Text.Trim: its own contract states the length bound and the clean ends. That the result is the input with only the white space at its two ends cut is stated by `Text.TrimMeaning`. It is kept apart from the function because an existential on such a widely used function slows every proof that uses it.
- Text.ParseInt: the pieces it reads never hold a `-`, because they come from splitting at `-`, so a negative sign is not modelled. Leading white space and a `+` are.
- `Number` precision is not modelled: ids' numbers, the next person id and the formatted years are unbounded integers, so no loss of precision past 2^53 arises.
- `localeCompare` ordering is replaced by plain ordinal string order, both for `sortedPersons` and for the family sort. It is locale-dependent.
- JavaScript object key order is modelled as the first-insertion order of the row ids (`TreeHierarchy.KeyOrder`). The integer-like-keys-first rule of object keys is not modelled.
- TreeHierarchy.HierarchyParents: assumes distinct row ids. With duplicate ids the later row overwrites the earlier one in `dataMap`, and the model does not state what the nodes then hold.
- `addSpouseFromInput`, `clearFather` and `clearMother` are UI handlers and are not modelled. Their relation edits are `addSpouseLink` and a parent reset, which are covered.
- The log entry that each edit appends is left to the caller, `DraftStore.Draft.AddLog`, because its text is a status message.
- The tree refresh after each edit (`refreshTreeFromDraft`) is left to the caller. It runs `DraftStore.Draft.SyncRuntimeMaps` only when the viewer's globals exist, and then clicks a DOM node. So the edit methods do not include the relation entries that the sync ensures for every person.
- `loadData`, `importCsvText` and the CSV export builders are not modelled, because they are I/O and file formatting. The import into relations is modelled by `DraftStore.Draft.BuildRelationsFromFamilies`, and the export rows by `DraftData.SanitizePersons`, `DraftData.SanitizeContacts`, `DraftData.SanitizePhotos` and `DraftFamilies.GenerateFamiliesShape`.
- DraftStore.Draft.SyncRuntimeMaps: does not model the `false` return when the runtime globals are absent. The globals are passed in.
- Photo handling is not modelled: upload, mapping, preview and rename. Only `sanitizePhotos` and the photo validation are modelled.
- Text.ToLower and Text.ToUpper map ASCII letters only. Unicode case mapping is not modelled.
- `centerNodeFamily`, `getFocusPath`, `applyLineageFocus` and `renderProfileModal` only touch the DOM. Their data-side helpers, `getLineageIds` and `getParentNames`, are modelled.
- TreeView.HomeNode: states only that a stored id naming a node wins. It does not state the fallback through `Object.values(...).find`, which is `TreeView.FirstNamed`.
