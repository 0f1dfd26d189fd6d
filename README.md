# Auto-tag rules: shared-list reconciliation

This project models the core of the `dynatrace_autotag_rules` resource of the
Dynatrace Terraform provider. Several independently managed resources each
own a subset of the `Rules` list inside one shared auto-tag object. The remote
API gives rules no identity, so every operation compares rules structurally
and rewrites the whole list. The model covers:

- the nil-aware structural comparators (`wrappers.dfy`, `settings.dfy`,
  `comparators.dfy`): Go pointers are `Option`s, the rule, attribute-rule and
  condition structs are datatypes holding the fields the comparators read;
- the rule-list logic of Create, Update and Read (`reconcile.dfy`), with the
  fetched list and the `current_state` snapshot as inputs and the written or
  observed list as output; Go's `reflect.DeepEqual` on two rules is `==`;
- the rule-list logic of Delete (`removal.dfy`), on an array with an explicit
  length, following Go's `range` semantics: the range fixes its length when it
  starts and reads the shared backing array, so after a removal the rule
  shifted into the freed slot is skipped and a stale copy of the last rule
  stays beyond the new length; slicing past the length is a runtime panic,
  modelled as a `None` outcome;
- the keyed mutex registry `multiMutex` (`registry.dfy`), sequentially, as a
  class whose map gains one fresh lock per new auto-tag id and never shrinks.

The model follows the code as written, including where it departs from what
one might expect:

- Create concatenates without removing duplicates.
- Update removes every occurrence of a rule deep-equal to a marked one, not
  one occurrence. Re-applying a configuration that the snapshot already
  records marks nothing and appends the configured rules once more
  (`UpdateWithUnchangedSnapshotAppends`).
- Delete removes rules while ranging over the list; see "## Findings".
- `boolPtrEquals` treats nil as equal to `false`.
- The condition-list comparison checks the lengths and one-way containment,
  so it is not a set equality and `RuleEquals` is not symmetric
  (`ConditionsEqualIsOneWay`, `RuleEqualsNotSymmetric`).

Each Go comparator over pointers begins with a pointer-identity shortcut
(`a == b`); the condition-list comparator, over slices, begins with nil
checks instead. Values
have no identity in the model, and the field-by-field comparison already
returns true on identical contents (`RuleEqualsReflexive`), so the shortcut
would change no result and is not modelled.

## Model

| member | source | states |
|---|---|---|
| Comparators.StrPtrEquals | resources/autotagrules/resource.go:311-325 | true exactly when both strings are nil or both present and equal |
| Comparators.IntPtrEquals | resources/autotagrules/resource.go:327-341 | true exactly when both integers are nil or both present and equal |
| Comparators.BoolPtrEquals | resources/autotagrules/resource.go:343-357 | true exactly when the flags agree with nil read as false: nil equals a present false and differs from a present true |
| Comparators.AttributeConditionEquals | resources/autotagrules/resource.go:388-433 | true exactly when both conditions are nil, or both present and equal in every field once a nil case-sensitivity flag is read as false |
| Comparators.AttributeConditionsEquals | resources/autotagrules/resource.go:359-386 | the nested search returns false when exactly one list is nil or the lengths differ, and otherwise true exactly when every condition of the first list matches some condition of the second |
| Comparators.ConditionsEqualReflexive | resources/autotagrules/resource.go:372-383 | every condition list equals itself under the condition-list comparison |
| Comparators.ConditionsEqualIsOneWay | resources/autotagrules/resource.go:369-383 | for conditions x and y with y not matching x: [x, x] equals [x, y] but [x, y] does not equal [x, x] |
| Comparators.AutoTagAttributeRuleEquals | resources/autotagrules/resource.go:435-480 | true exactly when both attribute rules are nil, or both present with the same entity type, the same propagation flags (nil read as false) and condition lists equal under the one-way comparison |
| Comparators.RuleEquals | resources/autotagrules/resource.go:482-514 | true exactly when both rules are nil, or both present with equal enabled flag, entity selector, type, value format and normalization and equal attribute rules |
| Comparators.RuleEqualsReflexive | resources/autotagrules/resource.go:482-514 | every rule, nil or not, equals itself |
| Comparators.RuleEqualsNotSymmetric | resources/autotagrules/resource.go:457-459 | two rules differing only in conditions [x, x] versus [x, y] compare equal in one order and unequal in the other |
| Reconcile.Create | resources/autotagrules/resource.go:98-100 | the written list is the fetched list followed by the configured rules, in order, its length the sum and its multiset the sum of both |
| Reconcile.Update | resources/autotagrules/resource.go:159-189 | the marked rules are Unmatched(snapshot, configured) and the written list is fetched ++ configured without every element equal to a marked rule |
| Reconcile.UnmatchedMembers | resources/autotagrules/resource.go:159-172 | a rule is marked exactly when it is a snapshot rule that no configured rule matches; no more rules are marked than the snapshot holds |
| Reconcile.AllMatchedMarksNothing | resources/autotagrules/resource.go:159-172 | when every snapshot rule has a configured match, nothing is marked |
| Reconcile.WithoutMembers | resources/autotagrules/resource.go:173-188 | a rule is written exactly when it is in fetched ++ configured and equal to no marked rule, so every occurrence of a marked rule goes |
| Reconcile.WithoutConcat | resources/autotagrules/resource.go:176-188 | the removal distributes over concatenation, so kept rules stay in their order |
| Reconcile.UpdateKeepsConfigured | resources/autotagrules/resource.go:159-189 | every configured rule is in the written list, and the written list is the fetched rules without the marked ones followed by every configured occurrence, in order: a deep-equal marked rule would have matched itself |
| Reconcile.UpdateWithUnchangedSnapshotAppends | resources/autotagrules/resource.go:159-189 | with the configuration as snapshot nothing is marked and the written list is fetched ++ configured, so the configured rules are appended again |
| Reconcile.CopiesShape | resources/autotagrules/resource.go:241-245 | the inner loop adds only copies of the snapshot rule, at most one per fetched rule, and at least one exactly when some fetched rule matches it |
| Reconcile.ObservedMembers | resources/autotagrules/resource.go:237-247 | a rule is observed exactly when it is a snapshot rule that matches some fetched rule |
| Reconcile.ObservedConcat | resources/autotagrules/resource.go:238-246 | observation distributes over the snapshot, so observed rules keep snapshot order |
| Reconcile.Read | resources/autotagrules/resource.go:237-247 | the result is Observed(snapshot, api): each snapshot rule once per matching fetched rule, in snapshot order, and nothing is written |
| Reconcile.CreateThenReadSeesConfigured | resources/autotagrules/resource.go:98-100 | Read over the list Create wrote, with the configured rules as snapshot, observes every configured rule |
| Reconcile.UpdateThenReadSeesConfigured | resources/autotagrules/resource.go:173-189 | Read over the list Update wrote, with the configured rules as snapshot, observes every configured rule |
| Removal.Shift | resources/autotagrules/resource.go:297 | removing index i of a slice of length n shifts the tail left by one, keeps the backing length and leaves the old last element behind the new length |
| Removal.RemoveAt | resources/autotagrules/resource.go:297 | the in-place removal leaves the backing array equal to Shift of the old one |
| Removal.Sweep | resources/autotagrules/resource.go:295-299 | one pass of the inner range keeps the backing length and never grows the slice |
| Removal.DeleteFrom | resources/autotagrules/resource.go:294-300 | the outer range keeps the backing length and never grows the slice |
| Removal.Delete | resources/autotagrules/resource.go:293-300 | the final backing array and length, or the panic, are exactly those DeleteFrom gives for the fetched rules; the written list is then DeleteAsWritten of the fetched rules and the snapshot |
| Removal.PrunedRemove | resources/autotagrules/resource.go:296-298 | removing one more snapshot-matched rule from a pruned list leaves it pruned |
| Removal.PrunedIsSubmultiset | resources/autotagrules/resource.go:293-300 | a pruned list holds no rule more often than the fetched list |
| Removal.DeleteWritesPrunedList | resources/autotagrules/resource.go:293-300 | when DeleteAsWritten (the list Delete writes back) is not a panic, it is the fetched list with some rules dropped, order kept, every dropped rule matched by a snapshot rule |
| Removal.DeleteUnchangedWithoutMatches | resources/autotagrules/resource.go:293-300 | when no snapshot rule matches any fetched rule, Delete writes the fetched list back unchanged and does not panic |
| Removal.DeletePanicsOnAdjacentCopies | resources/autotagrules/resource.go:295-297 | fetched [x, x] with snapshot [x] panics |
| Removal.DeleteSkipsShiftedRule | resources/autotagrules/resource.go:295-297 | fetched [x, x, y] with snapshot [x] writes [x, y], which Read still observes as [x], while the corrected removal writes [y] |
| Removal.DeleteCorrected | resources/autotagrules/resource.go:293-300 | the corrected removal writes a pruned list in which no rule is matched by a snapshot rule, and the fetched list itself when nothing matches |
| Removal.DeleteCorrectedIsComplete | resources/autotagrules/resource.go:293-300 | after the corrected removal, Read with the same snapshot observes nothing |
| Registry.MultiMutex.constructor | resources/autotagrules/resource.go:72 | the registry starts with no locks |
| Registry.MultiMutex.Get | resources/autotagrules/resource.go:60-70 | afterwards `id` is mapped to the returned lock; an existing lock is returned unchanged with the map untouched, otherwise a fresh lock is added; no other entry changes, none is removed, and distinct ids keep distinct locks |

## Left out

- Locking itself (`sync.Mutex` Lock and Unlock, `defer`, the registry's own `lock` field): the model is sequential, so only the registry's map bookkeeping is kept.
- The global registry variable `mmu`: the constructor models its initial value.
- Credential lookup, the auto-tag service's Get and Update calls and their errors, `d.Set`, `d.SetId` and `uuid.New`: these are I/O and foreign calls; the fetched list is an input and the written list an output.
- JSON encoding and decoding of `current_state` and HCL marshalling: foreign serialisers; the snapshot is an already decoded list of rules, empty when absent.
- Fields of the settings structs that the comparators do not read: the struct definitions are not part of this model, so `reflect.DeepEqual` is `==` over the modelled fields only.
- Nil entries inside the rule lists: the lists are modelled as lists of present rules. Create, Read and Delete would accept nil entries (`RuleEquals` treats two nils as equal), but Update's `reflect.DeepEqual(*apiRule, *deleteRule)` dereferences both rules once some rule is marked, which panics on a nil entry; that panic is not modelled.
- The capacity of the fetched slice beyond its length: every removal fits in place, so only the length matters.
- Go's `int` width: integer values are only compared, never computed with.

## Findings

| source | as written | input that shows it | evidently intended | confidence | as-written member | corrected member |
|---|---|---|---|---|---|---|
| resources/autotagrules/resource.go:294-300 | removes from the rule slice while ranging over it with a fixed length over the shared backing array | fetched [x, x], snapshot [x]: index 1 reads the stale copy of x and `Rules[2:]` on a slice of length 1 panics; fetched [x, x, y], snapshot [x]: the shifted x is skipped and [x, y] is written | every fetched rule matched by a snapshot rule is removed, without a panic | high; not executed | Removal.DeletePanicsOnAdjacentCopies | Removal.DeleteCorrected |
