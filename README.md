# omexon/helpers core, modelled in Dafny

This project models the PHP helper library omexon/helpers. It covers the parts that are logic rather than glue:

- the dot-path accessor on nested ordered arrays (`Arr`);
- the typed key/value store that the two data traits add to a class (`DataTrait.Data`);
- delimiter-encoded string lists (`StrList`);
- the sequence-manipulation string helpers (`Str`);
- the layout validators (`Is`);
- the lazy instance cache of the singleton trait (`Singleton`).

Modules:

- `PhpString` models the PHP string builtins the core relies on:
  - `explode` is `Split`; `implode` is `Join`;
  - `trim`, `ltrim` and `rtrim` with a character list;
  - `str_replace`;
  - ASCII `strtolower`;
  - the decimal integer text that `(string)` prints and `intval` parses, with saturation at the 64-bit bounds.
- `PhpArray` models a PHP array as a sequence of `(key, value)` entries in insertion order:
  - writing to an existing key keeps its position;
  - writing to a new key appends it;
  - `unset` removes the entry.
- `PhpValue` is the value datatype:
  - five constructors, `Null | Bool | Int | Str | Map`. The library's `'not.found'` sentinel is the constant `NotFound`, the string value `Str("not.found")`;
  - integer keys are their canonical decimal strings.
- `Arr`:
  - `dataByPath` is a zipper walk. `Walk` is the specification and the method `DataByPath` is the loop. `Plug` rebuilds the root around the node reached, which is how `set` and `remove` write through the reference.
  - `Resolve` is an independent read-only lookup. The walk is proved against it.
- `Str`, `StrList` and `Is` each follow their namesake PHP class.
- `DataTrait.Data` is a class. Its one `data` field holds what both traits share:
  - one method per private `data*` method;
  - one method per public chaining method, which returns the object itself.
- `Singleton.Registry` keeps the two caches as maps from names to `Instance` objects.

## Model

| member | source | states |
|---|---|---|
| Arr.DataByPath | src/Arr.php:409-425 | the loop over the path segments ends in exactly the zipper that the recursive walk `PathWalk` describes |
| Arr.Descend | src/Arr.php:416-422 | one step of the walk. An existing key yields its entry and the entries around it. A missing key with `create` yields a fresh null child appended at the end. A missing key without `create` stops the walk |
| Arr.WalkResolve | src/Arr.php:409-425 | a walk without `create` finds a node exactly when the read-only lookup `Resolve` does, and finds the same node |
| Arr.WalkRootResolve | src/Arr.php:409-425 | writing `x` at the place the walk reached and rebuilding the root gives a structure whose path resolves to `x`. A walk that did not reach the end makes the path unresolvable |
| Arr.WalkShape | src/Arr.php:414-424 | the frames a walk leaves carry the path's segments in order. Each frame's key does not occur before it. A stopped walk stopped at a map that lacks the next segment |
| Arr.FoundWalkKeepsRoot | src/Arr.php:414-424 | a successful walk without `create` changes nothing in the structure |
| Arr.WalkKeepsMaps | src/Arr.php:416-418 | a walk without `create` changes nothing as long as every node it passes is a map. Only a non-map node met partway down is overwritten |
| Arr.Get | src/Arr.php:17-24 | an empty key gives the whole array. Otherwise the result is the resolved value, or the default when the path is missing or the stored value is null |
| Arr.Has | src/Arr.php:57-61 | an empty key holds. Otherwise `has` holds exactly when the path resolves to something other than the string 'not.found'. A stored null counts; a stored 'not.found' string does not |
| Arr.Assign | src/Arr.php:45-47 | assigning into a map or a null gives a map in which the key holds the new value |
| Arr.Set | src/Arr.php:34-48 | the new caller array is `Assigned`: the parent walk (which may overwrite scalars), then the write when the parent was found and is not null or `create` is set |
| Arr.AssignedIsPlug | src/Arr.php:34-48 | `Assigned` is the parent walk with the last segment assigned into the node reached, rebuilt into the root |
| Arr.GetAfterSet | src/Arr.php:34-48 | after `set` with `create` and a non-null value, `get` returns that value and `has` holds |
| Arr.SetResolves | src/Arr.php:34-48 | after `set` with `create`, the full path resolves to the value written, even a null |
| Arr.SetWithoutCreate | src/Arr.php:42-47 | `set` without `create` on a missing parent writes no value. `get` gives the default and `has` fails. When every node walked is a map, the array is unchanged |
| Arr.SetOverwritesScalar | src/Arr.php:416-418 | `set(['a' => 'x'], 'a.b.c', 1)` without `create` leaves `['a' => []]`: the scalar met on the way is overwritten even though nothing is written |
| Arr.Remove | src/Arr.php:109-124 | the returned array is `Removed`: the parent walk on the copy, then `unset` of the last segment in the node reached |
| Arr.RemovedIsPlug | src/Arr.php:109-124 | `Removed` is the parent walk with the last segment deleted from the node reached, rebuilt into the root |
| Arr.RemoveThenNotHas | src/Arr.php:109-124 | after `remove(data, p)`, `has(result, p)` fails |
| Arr.RemoveKeepsSiblings | src/Arr.php:109-124 | after `remove`, the parent map is the old one with exactly that key deleted. The siblings keep their values and their order |
| Arr.RemoveAbsentUnchanged | src/Arr.php:109-124 | removing an absent path whose nodes are all maps returns the array unchanged |
| Arr.TopLevelKey | src/Arr.php:34-48 | for a key without dots, `set` is a plain array write and `remove` a plain `unset` |
| Arr.PathParts | src/Arr.php:37-38 | a path splits into its parent segments followed by its last segment. Walking the parent path is walking the parent segments |
| Arr.First | src/Arr.php:70-81 | null on an empty array. Otherwise the first element, or its field `key` when the element is an array in which that field is set to a non-null value |
| Arr.Last | src/Arr.php:90-100 | null on an empty array. Otherwise the last element, or its field `key` when the element is an array in which that field is set to a non-null value |
| Arr.RemoveFirst | src/Arr.php:132-138 | an empty array stays empty. Otherwise one entry fewer, holding the values after the first one in the same order |
| Arr.RemoveLast | src/Arr.php:146-152 | an empty array stays empty. Otherwise the key `count - 1` is gone and every other key keeps its value |
| Arr.RemoveFirstOfList | src/Arr.php:132-138 | on a non-empty list, `first` is the first item and `removeFirst` leaves exactly the remaining items, renumbered from 0 |
| Arr.RemoveLastOfList | src/Arr.php:146-152 | on a non-empty list, `last` is the last item and `removeLast` leaves exactly the items before it |
| Arr.RenumberList | src/Arr.php:132-138 | `array_shift` renumbering a numbered run gives the same values numbered from the new start |
| Arr.RenumberStringKeys | src/Arr.php:132-138 | renumbering leaves an array without integer keys unchanged |
| Arr.StrSegmentsThroughArr | src/Str.php:318-349 | `Str::last` and `Str::removeLast`, built on `Arr::last` and `Arr::removeLast` over the exploded list, give the last segment and the string before it |
| Arr.IsList | src/Arr.php:160-171 | the loop returns exactly whether keys 0 .. n-1 are all set to non-null values |
| Arr.ListOfListed | src/Arr.php:160-171 | a list of values passes `isList` exactly when none of its items is null |
| Arr.NullItemNotListed | src/Arr.php:160-171 | `[null]` is not a list for `isList` |
| Arr.FirstHit | src/Arr.php:208-225 | the position found holds a matching item, and no earlier item matches. -1 means no item matches. With a key, an array item is compared by its field, and a string item by its one character at an integer offset, counted from the end when negative |
| Arr.IndexOf | src/Arr.php:208-225 | the loop returns the key of the first matching item, an integer key as an int, or -1 when none matches |
| Arr.IndexOfStringOffset | src/Arr.php:215 | `indexOf(['abc'], 'a', '0')` and `indexOf(['abc'], 'c', '-1')` find position 0, while offset '3' lies outside 'abc' and finds nothing |
| Arr.IndexOfList | src/Arr.php:208-225 | on a list, the key returned is the item's position |
| Arr.KeysExist | src/Arr.php:234-244 | the result holds exactly when every key asked for is a top-level key of the array |
| Arr.Pluck | src/Arr.php:288-314 | one entry per element of the collection at the parent path, numbered from 0. Each is the element's field under the last segment, or the default when it is unset |
| Arr.PluckFields | src/Arr.php:303-311 | the loop gives one entry per item, numbered from 0: the item's field when it is an array with that field set, otherwise the default |
| Arr.PluckItemsResolve | src/Arr.php:288-314 | the collection plucked is the array itself for a key without dots, and otherwise what the parent path resolves to |
| Arr.PluckNotArray | src/Arr.php:288-314 | a non-array input gives an empty result |
| Arr.MatchLine | src/Arr.php:335-355 | a line is kept only with a non-empty prefix and suffix, and when its trimmed form starts with the prefix. Without removal it is kept exactly when its trimmed form also ends with the suffix, and it comes back whole, or trimmed when asked |
| Arr.LineMatch | src/Arr.php:326-358 | the loop keeps exactly the lines that `MatchLine` accepts, in order, each rewritten as `MatchLine` says |
| Arr.MatchOne | src/Arr.php:335-355 | one line's test (trim, prefix, suffix, optional removal and re-trim) agrees with `MatchLine` |
| Arr.LineMatchNeedsAffixes | src/Arr.php:336-349 | with an empty prefix or an empty suffix no line matches |
| Arr.MatchLineRemoving | src/Arr.php:336-353 | a line that trims to prefix, middle, suffix yields the middle, trimmed when asked |
| Arr.MatchLineRecoversMiddle | src/Arr.php:326-358 | a padded `prefix + y + suffix` line, with `removePrefixSuffix`, gives back exactly `y` |
| Arr.ToArray | src/Arr.php:367-378 | an array is returned as it is. A non-blank string gives its exploded pieces keyed 0 .. n-1 in order, and rejoining them gives the string back. Anything else gives an empty array |
| DataTrait.Data.constructor | src/Traits/DataPrivateTrait.php:11-12 | a new store is empty |
| DataTrait.Data.DataClear | src/Traits/DataPrivateTrait.php:17-20 | the data becomes empty |
| DataTrait.Data.DataGet | src/Traits/DataPrivateTrait.php:29-32 | the result is `Arr::get` on the data |
| DataTrait.Data.DataSet | src/Traits/DataPrivateTrait.php:40-43 | the data becomes `Arr::set` of the value with `create` |
| DataTrait.Data.DataSetArray | src/Traits/DataPrivateTrait.php:51-60 | without `merge`, the data becomes the given array. With `merge`, the loop sets each top-level entry in turn |
| DataTrait.Data.DataGetString | src/Traits/DataPrivateTrait.php:69-72 | the `(string)` cast of the value, or of the default when the value is missing or null |
| DataTrait.Data.DataGetStringNull | src/Traits/DataPrivateTrait.php:81-88 | the default exactly when `dataGet` is null, otherwise the string cast |
| DataTrait.Data.DataSetString | src/Traits/DataPrivateTrait.php:96-99 | stores the `(string)` cast of the value |
| DataTrait.Data.DataGetInt | src/Traits/DataPrivateTrait.php:108-111 | `intval` of the value, or of the default |
| DataTrait.Data.DataGetIntNull | src/Traits/DataPrivateTrait.php:120-127 | the default exactly when `dataGet` is null, otherwise `intval` |
| DataTrait.Data.DataSetInt | src/Traits/DataPrivateTrait.php:135-138 | stores `intval` of the value |
| DataTrait.Data.DataGetBool | src/Traits/DataPrivateTrait.php:147-154 | the token test on the value, or on the default |
| DataTrait.Data.DataGetBoolNull | src/Traits/DataPrivateTrait.php:163-173 | the default exactly when `dataGet` is null, otherwise the token test |
| DataTrait.Data.DataSetBool | src/Traits/DataPrivateTrait.php:181-187 | stores the boolean the token test gives |
| DataTrait.Data.DataSetNull | src/Traits/DataPrivateTrait.php:194-197 | stores null under the key |
| DataTrait.Data.DataRemove | src/Traits/DataPrivateTrait.php:204-207 | the data becomes `Arr::remove` of the key |
| DataTrait.Data.DataHas | src/Traits/DataPrivateTrait.php:215-218 | the result is `Arr::has` on the data |
| DataTrait.Data.DataToArray | src/Traits/DataPrivateTrait.php:226-247 | the two loops build exactly `Ordered(data, keyOrder)` |
| DataTrait.OrderedContents | src/Traits/DataPrivateTrait.php:226-247 | `dataToArray` holds exactly the data's top-level pairs, with unique keys. The keys named in the order come first, in the order's order. The rest follow in data order |
| DataTrait.PickOrderedLookup | src/Traits/DataPrivateTrait.php:231-237 | the first loop picks exactly the keys that are named in the order and exist, with their values |
| DataTrait.PickOrderedOrder | src/Traits/DataPrivateTrait.php:231-237 | the picked keys appear in the order's order, and no missing key is picked |
| DataTrait.AddRestOrder | src/Traits/DataPrivateTrait.php:240-244 | the second loop appends the remaining keys in data order after the picked ones |
| DataTrait.OrderedEmpty | src/Traits/DataPrivateTrait.php:226-247 | `dataToArray` of an empty store is empty for every order |
| DataTrait.OrderedNoOrder | src/Traits/DataPrivateTrait.php:226-247 | with no order given, `dataToArray` returns the data as it is |
| DataTrait.IsTrueIff | src/Traits/DataPrivateTrait.php:147-154 | the token test holds exactly for 1, true, and the strings '1', 'true', 'yes', 'on' lower-cased |
| DataTrait.TrueTokensTrue | src/Traits/DataPrivateTrait.php:147-154 | 1, true, '1', 'true', 'yes' and 'on' read as true |
| DataTrait.TrueTokensAnyCase | src/Traits/DataPrivateTrait.php:150-153 | 'TRUE', 'Yes' and 'On' read as true |
| DataTrait.OtherValuesFalse | src/Traits/DataPrivateTrait.php:147-154 | 0, 2, false and null read as false |
| DataTrait.FalseStringsFalse | src/Traits/DataPrivateTrait.php:147-154 | '0', 'false', 'no' and 'off' read as false |
| DataTrait.IsTrueOfBool | src/Traits/DataPrivateTrait.php:181-187 | a stored boolean reads back as itself |
| DataTrait.MergeFlat | src/Traits/DataPrivateTrait.php:51-60 | merging dot-free keys keeps every existing key, adds the new ones, and takes the new value wherever a key is in both |
| DataTrait.EmptyStoreDefaults | src/Traits/DataPrivateTrait.php:69-72 | on an empty store every key gives the default and is not set |
| DataTrait.SetBoolThenGetBool | src/Traits/DataPrivateTrait.php:181-187 | after `dataSetBool(k, x)`, `dataGetBool(k)` is the token test of `x` |
| DataTrait.SetStringThenGetString | src/Traits/DataPrivateTrait.php:96-99 | after `dataSetString(k, x)`, `dataGetString(k)` is the string cast of `x` |
| DataTrait.SetIntThenGetInt | src/Traits/DataPrivateTrait.php:135-138 | after storing an int, `dataGetInt` returns it |
| DataTrait.SetNullThenHas | src/Traits/DataPrivateTrait.php:194-197 | after `dataSetNull(k)`, `dataHas(k)` holds while `dataGet(k, d)` is `d` |
| DataTrait.SetNullExample | src/Traits/DataPublicTrait.php:174-178 | `setNull('test')` on `['test' => 'something']` gives `['test' => null]`, and `has('test')` holds |
| DataTrait.RemoveExample | src/Traits/DataPublicTrait.php:186-190 | `remove('test')` on `['test' => 'something']` gives an empty array |
| DataTrait.ToArrayOrderExample | src/Traits/DataPublicTrait.php:209-212 | `toArray(['bool', 'value', 'test'])` on `{mixed, value, bool}` gives the order bool, value, mixed |
| DataTrait.Data.Clear | src/Traits/DataPublicTrait.php:14-17 | the data becomes empty |
| DataTrait.Data.Get | src/Traits/DataPublicTrait.php:26-29 | the result is `dataGet` |
| DataTrait.Data.Set | src/Traits/DataPublicTrait.php:38-42 | `dataSet`, returning the same store |
| DataTrait.Data.SetArray | src/Traits/DataPublicTrait.php:51-55 | `dataSetArray`, returning the same store |
| DataTrait.Data.GetString | src/Traits/DataPublicTrait.php:64-67 | the result is `dataGetString` |
| DataTrait.Data.GetStringNull | src/Traits/DataPublicTrait.php:76-79 | the result is `dataGetStringNull` |
| DataTrait.Data.SetString | src/Traits/DataPublicTrait.php:88-92 | `dataSetString`, returning the same store |
| DataTrait.Data.GetInt | src/Traits/DataPublicTrait.php:101-104 | the result is `dataGetInt` |
| DataTrait.Data.GetIntNull | src/Traits/DataPublicTrait.php:113-116 | the result is `dataGetIntNull` |
| DataTrait.Data.SetInt | src/Traits/DataPublicTrait.php:125-129 | stores the int, returning the same store |
| DataTrait.Data.GetBool | src/Traits/DataPublicTrait.php:138-141 | the result is `dataGetBool` |
| DataTrait.Data.GetBoolNull | src/Traits/DataPublicTrait.php:150-153 | the result is `dataGetBoolNull` |
| DataTrait.Data.SetBool | src/Traits/DataPublicTrait.php:162-166 | `dataSetBool`, returning the same store |
| DataTrait.Data.SetNull | src/Traits/DataPublicTrait.php:174-178 | `dataSetNull`, returning the same store |
| DataTrait.Data.Remove | src/Traits/DataPublicTrait.php:186-190 | `dataRemove`, returning the same store |
| DataTrait.Data.Has | src/Traits/DataPublicTrait.php:198-201 | the result is `dataHas` |
| DataTrait.Data.ToArray | src/Traits/DataPublicTrait.php:209-212 | the result is `dataToArray` |
| StrList.Items | src/StrList.php:170-176 | the empty string is the empty list; any other string is its exploded pieces |
| StrList.JoinItems | src/StrList.php:170-176 | imploding the items gives the list string back |
| StrList.ItemsOfJoin | src/StrList.php:170-176 | exploding an imploded list of separator-free items gives the items back |
| StrList.Count | src/StrList.php:16-19 | the number of items, 0 exactly for the empty string |
| StrList.Get | src/StrList.php:48-59 | an out-of-range index gives ''. An in-range index gives the item, with the tag character stripped from both ends when it is on both |
| StrList.GetUntags | src/StrList.php:48-59 | `get` of an item stored as `tag.item.tag` returns `item` |
| StrList.Pos | src/StrList.php:70-78 | the index of the first item equal to `tag.item.tag`, or -1 |
| StrList.Exist | src/StrList.php:125-129 | `exist` holds exactly when `pos` finds the item, that is, when `pos` is 0 or more |
| StrList.EmptyList | src/StrList.php:170-176 | on the empty list, count is 0, `get` is '', `pos` is -1 and `exist` fails |
| StrList.Add | src/StrList.php:30-37 | an item already present leaves the list as it is; otherwise `tag.item.tag` is appended |
| StrList.AddAppends | src/StrList.php:30-37 | adding a new item to a non-empty list appends the separator and the tagged item |
| StrList.AddIdempotent | src/StrList.php:30-37 | after `add` the item exists, a new item is the one extra last item, and adding twice equals adding once |
| StrList.Remove | src/StrList.php:89-97 | a missing item leaves the list unchanged. Otherwise the item at `pos` is dropped |
| StrList.RemoveFirstOccurrence | src/StrList.php:89-97 | `remove` drops exactly the first occurrence, and the other items keep their order |
| StrList.RemoveIndex | src/StrList.php:107-114 | an out-of-range index leaves the list unchanged; an in-range one drops that item |
| StrList.RemoveIndexDrops | src/StrList.php:107-114 | after `removeIndex`, the items are the old ones without the one at that index |
| StrList.MergeItemsShape | src/StrList.php:141-161 | the first list's items come first, unchanged. Each later item is new. The result holds exactly the items of both lists |
| StrList.MergeItemsDistinct | src/StrList.php:141-161 | merging into a list without duplicates gives a list without duplicates |
| StrList.Insert | src/StrList.php:157-159 | inserting into a sorted list keeps it sorted and adds exactly the one item |
| StrList.SortItems | src/StrList.php:157-159 | the sorted items are in order and are a permutation of the input |
| StrList.Merge | src/StrList.php:141-161 | the loop's result is the merged items, sorted when asked, imploded |
| StrList.MergeKeepsFirst | src/StrList.php:141-161 | the merged items start with list1's items and hold exactly the items of both lists |
| StrList.MergeExample | src/StrList.php:141-161 | merging 'b,a' and 'd,c' without sorting gives the items b, a, d, c |
| StrList.SortExample | src/StrList.php:157-159 | sorting b, a, d, c gives a, b, c, d |
| Str.IsPrefixed | src/Str.php:155-161 | the empty prefix always matches. With a separator, a prefix that starts with a separator character never matches |
| Str.IsSuffixed | src/Str.php:221-227 | with a separator, a suffix that ends with a separator character never matches |
| Str.IsSuffixedEmpty | src/Str.php:221-227 | with an empty suffix, `isSuffixed` holds only for a string that trims to nothing |
| Str.StripPrefix | src/Str.php:171-186 | '' stays ''. With no separator, a present prefix is removed exactly once and any other string is unchanged. With a separator, the result does not start with a separator character |
| Str.ForcePrefix | src/Str.php:196-211 | '' stays ''. A non-empty result starts with the prefix. With no separator, a prefixed string is unchanged |
| Str.ForcePrefixIdempotent | src/Str.php:196-211 | without a separator, forcing a prefix twice equals forcing it once |
| Str.StripSuffix | src/Str.php:237-252 | '' stays ''. With no separator, a present suffix is removed exactly once and any other string is unchanged. With a separator, the result does not end with a separator character |
| Str.ForceSuffix | src/Str.php:262-277 | '' stays ''. A non-empty result ends with the suffix. With no separator, a suffixed string is unchanged |
| Str.ForceSuffixIdempotent | src/Str.php:262-277 | without a separator, forcing a suffix twice equals forcing it once |
| Str.ForceSuffixEmptySuffix | src/Str.php:262-277 | an empty suffix never counts as present, so `forceSuffix('ab', '', '.')` appends the separator |
| Str.First | src/Str.php:332-336 | the first segment starts the string. With a one-character separator it holds no separator |
| Str.Last | src/Str.php:345-349 | with one segment the last segment is the whole string. With a one-character separator it holds no separator |
| Str.RemoveFirst | src/Str.php:304-309 | with one segment the result is ''. Otherwise it starts with the second segment |
| Str.RemoveLast | src/Str.php:318-323 | the result starts the string, and with one segment it is '' |
| Str.FirstAndRemoveFirst | src/Str.php:304-336 | `first`, the separator and `removeFirst` put back together give the string. With one segment, `first` is the whole string and `removeFirst` is '' |
| Str.RemoveLastAndLast | src/Str.php:318-349 | `removeLast`, the separator and `last` put back together give the string. With one segment, `last` is the whole string and `removeLast` is '' |
| Str.Part | src/Str.php:360-369 | '' and any index out of range give the default. An index in range gives that exploded segment |
| Str.PartFree | src/Str.php:360-369 | with a one-character separator, a segment found in range holds no separator |
| Str.PartEnds | src/Str.php:360-369 | `part` at 0 is `first`, and `part` at the last index is `last` |
| Str.Combine | src/Str.php:444 | `array_combine` has exactly the given keys |
| Str.CombineDistinct | src/Str.php:444 | with distinct keys, `array_combine` pairs `keys[i]` with `values[i]` in order |
| Str.SplitIntoKeyValue | src/Str.php:430-447 | empty keys give an empty result. Otherwise the keys are the first `min(|keys|, |parts|)` keys |
| Str.SplitIntoKeyValueDistinct | src/Str.php:430-447 | with distinct keys, the result pairs `keys[i]` with `parts[i]` for the first `min(|keys|, |parts|)` positions |
| Str.Explode | src/Str.php:476-488 | one item per exploded piece, after removing "\r" for a "\n" separator, each mapped by the item function. Without one, imploding gives the input back |
| Str.Implode | src/Str.php:498-506 | the items, mapped by the item function, joined by the separator. Exploding the result gives separator-free items back |
| Str.ReplaceToken | src/Str.php:287-295 | the loop replaces each `{key}` with its value, key by key in order |
| Str.ReplaceOneToken | src/Str.php:287-295 | one token replacement splits on `{key}` and joins with the value |
| Str.ReplaceTokensNoBrace | src/Str.php:287-295 | a string without '{' is unchanged |
| Str.PadLeft | src/Str.php:516-522 | the result is zero or more fillers followed by the string. It is longer than `length - |filler|`, and no longer than `length` when anything was added |
| Str.PadRight | src/Str.php:532-538 | the result is the string followed by zero or more fillers. It is longer than `length - |filler|`, and no longer than `length` when anything was added |
| Str.Wrapped | src/Str.php:548-583 | '' and a text of exactly `length` characters are returned as they are, and a text ending in "\n" gives a result ending in "\n" |
| Str.Wrap | src/Str.php:548-583 | the method, as written, computes `Wrapped`: '' and a text of exactly `length` are returned as they are. Otherwise the "\r" and "\n" are removed, the words are placed into lines, the lines joined, and a trailing "\n" is kept |
| Str.WrapStep | src/Str.php:562-578 | one iteration of the word loop places the word on the last line or on a new one |
| Str.WrapLinesFit | src/Str.php:562-578 | every produced line is at most `length` characters long, or holds no space (a single word) |
| Str.WrapLeadingEmptyLine | src/Str.php:567-572 | as written, `wrap('abc', 2)` is "\nabc": the first word is pushed off an empty first line |
| Str.WrapLinesVersusIntended | src/Str.php:562-578 | for a non-empty list of non-empty words, the lines as written are the intended lines, with one extra empty first line exactly when the first word reaches `length` |
| Str.WrapLinesIntendedKeepsWords | src/Str.php:562-578 | for a non-empty list of non-empty words, the intended lines are non-empty, and joining them with spaces gives the words joined with spaces |
| Str.PascalCase | src/Str.php:591-595 | the result has no space, '-' or '_' |
| Str.PascalCaseShape | src/Str.php:591-595 | every word of the result starts upper-case |
| Str.PascalCaseFixed | src/Str.php:591-595 | a string is its own pascal case exactly when it has no space, '-' or '_' and every word starts upper-case |
| Str.PascalCaseIdempotent | src/Str.php:591-595 | pascal-casing twice equals pascal-casing once |
| Str.PascalCaseOfCamelCase | src/Str.php:603-606 | the pascal case of the camel case is the pascal case |
| Str.CamelCase | src/Str.php:603-606 | the result has no space, '-' or '_', and does not start upper-case |
| Str.CamelCaseIdempotent | src/Str.php:603-606 | camel-casing twice equals camel-casing once |
| Str.UcWordsFixed | src/Str.php:593 | `ucwords` leaves a string unchanged exactly when every word already starts upper-case |
| Str.PascalCaseOfSeparated | src/Str.php:591-595 | 'test_class' and 'test-class' give 'TestClass' |
| Str.PascalCaseOfPascal | src/Str.php:591-595 | 'TestClass' and 'Id' are unchanged |
| Str.PascalCaseOfCamel | src/Str.php:591-606 | 'testClass' gives 'TestClass', and 'TestClass' camel-cases to 'testClass' |
| Str.CamelCaseExamples | src/Str.php:603-606 | 'TestClass', 'testClass', 'test_class' and 'test-class' all give 'testClass' |
| Is.MatchesIff | src/Is.php:59-87 | a layout matches exactly the strings of its length whose characters fit position by position |
| Is.Date | src/Is.php:59-63 | a date is 10 characters long, or 11 ending in "\n" |
| Is.DateIff | src/Is.php:59-63 | `date` holds exactly for `dddd-dd-dd`, optionally followed by one "\n" |
| Is.Time | src/Is.php:71-75 | a time is 8 characters long, or 9 ending in "\n" |
| Is.TimeIff | src/Is.php:71-75 | `time` holds exactly for `dd:dd:dd`, optionally followed by one "\n" |
| Is.DatetimeParts | src/Is.php:83-87 | a date, a space and a time match the datetime layout exactly when each part has its own shape |
| Is.Datetime | src/Is.php:83-87 | a datetime is 19 characters long, or 20 ending in "\n" |
| Is.DateExamples | src/Is.php:59-63 | '2020-01-31' and '2020-01-31' followed by "\n" are dates, and '12:34:56' is not |
| Is.TimeExamples | src/Is.php:71-75 | '12:34:56' is a time, and '2020-01-31' is not |
| Is.DatetimeExample | src/Is.php:83-87 | '2020-01-31 12:34:56' is a datetime |
| Is.ReversedNotDatetime | src/Is.php:83-87 | '12:34:56 2020-01-31' is not a datetime |
| Is.PascalCase | src/Is.php:37-40 | a pascal-case string has no space, '-' or '_' |
| Is.PascalCaseIff | src/Is.php:37-40 | `pascalCase` holds exactly when there is no space, '-' or '_' and every word starts upper-case |
| Is.CasesPass | src/Is.php:15-40 | the output of `Str::pascalCase` passes `Is::pascalCase`, and that of `Str::camelCase` passes `Is::camelCase` |
| Is.CamelCase | src/Is.php:15-18 | a camel-case string has no space, '-' or '_', and does not start upper-case |
| Is.CaseExamples | src/Is.php:15-40 | of 'TestClass', 'testClass', 'test_class' and 'test-class', only 'TestClass' is pascal case and only 'testClass' is camel case |
| Singleton.Registry.constructor | src/Traits/SingletonTrait.php:12-16 | both caches start empty |
| Singleton.Registry.InstanceByClass | src/Traits/SingletonTrait.php:26-40 | a cached class returns its cached instance and changes nothing. An unseen class gets a fresh instance built from the parameters, which is cached. The by-name cache is untouched |
| Singleton.Registry.InstanceByName | src/Traits/SingletonTrait.php:51-70 | a cached (class, name) returns its instance. Otherwise a fresh instance goes into the class's bucket, which is created when missing. Other classes' buckets and the by-class cache are untouched |
| Singleton.ByClassTwice | src/Traits/SingletonTrait.php:26-40 | two calls for one class give the same instance, built with the first call's parameters |
| Singleton.ByNameDistinct | src/Traits/SingletonTrait.php:51-70 | two names give distinct instances, and asking for the first name again gives the first instance |
| Singleton.Instance.constructor | src/Traits/SingletonTrait.php:31-36 | the instance records the class and the parameters it was built with |
| PhpString.Split | src/Str.php:476-488 | `explode` gives at least one piece. The first piece starts the string, and a single piece is the whole string |
| PhpString.Join | src/Str.php:498-506 | `implode` of a non-empty list starts with its first piece |
| PhpString.JoinSplit | src/Str.php:476-506 | imploding what `explode` returns gives the string back |
| PhpString.SplitJoin | src/Str.php:476-506 | exploding what `implode` returns gives back separator-free pieces |
| PhpString.ReplaceAllIsJoinSplit | src/Str.php:287-295 | `str_replace` is exploding on the needle and imploding with the replacement |
| PhpString.TrimLeft | src/Str.php:171-186 | `ltrim` removes a prefix made only of listed characters, and what is left does not start with one |
| PhpString.TrimRight | src/Str.php:237-252 | `rtrim` removes a suffix made only of listed characters, and what is left does not end with one |
| PhpString.TrimPadded | src/Arr.php:336-352 | trimming padding made of listed characters gives back a core that neither starts nor ends with one |
| PhpString.Lower | src/Traits/DataPrivateTrait.php:150-152 | `strtolower` lower-cases each character in place |
| PhpString.NatToString | src/Arr.php:132-138 | the decimal text of a number is digits without a leading zero |
| PhpString.IntToStringRoundTrip | src/Traits/DataPrivateTrait.php:108-111 | `intval` of `(string)` of a 64-bit integer gives the integer back |
| PhpString.ParseIntPrefix | src/Traits/DataPrivateTrait.php:108-111 | the parsed integer lies within the 64-bit bounds |
| PhpValue.IntVal | src/Traits/DataPrivateTrait.php:108-111 | `intval` of an int is the int. Of anything else it lies within the 64-bit bounds. A string without any digit gives 0, whatever its padding and sign |
| PhpValue.IntValStringCast | src/Traits/DataPrivateTrait.php:135-138 | `intval` after `(string)` of an integer gives the integer back |
| PhpValue.ListOfUnique | src/Arr.php:160-171 | a list has unique keys |
| PhpValue.NatKeyIsIntKey | src/Arr.php:132-138 | the decimal text of an index is an integer key |
| PhpArray.Put | src/Arr.php:45-47 | after a write the key holds the value and no other key changes. An existing key keeps its place; a new key is appended |
| PhpArray.Delete | src/Arr.php:109-124 | after `unset` the key is gone and no other key changes. An absent key leaves the array as it is |
| PhpArray.DeleteAt | src/Arr.php:109-124 | `unset` removes exactly the one entry that holds the key |
| PhpArray.PutUnique | src/Arr.php:45-47 | a write keeps the keys unique |
| PhpArray.IndexOf | src/StrList.php:70-78 | strict `array_search` gives the first position holding the item, or -1 |

## Left out

- src/Obj.php, src/Traits/ConstantsTrait.php and src/Traits/ConstantsStaticTrait.php are not part of this model: they only read the PHP reflection API.
- `Arr::toJson` is not modelled: it is `json_encode`, a foreign library. `Arr::isStringInList` is not modelled either: it rests on PHP's `is_numeric` parsing.
- `Arr::keys`, `Arr::values` and `Arr::isAssociative` are thin wrappers outside the modelled core.
- The Str functions that rest on Unicode tables, display width, regular expressions, CSV quoting or randomness are left out:
  - `length`, `lower`, `upper`, `substr`, `left`, `right`, `startsWith`, `endsWith`, `ucfirst`, `lcfirst`, `strpos`, `indexOf` and `contains` (mbstring);
  - `limit` (display width);
  - `slug`, `snakeCase`, `kebabCase` and `caseConvertArrayKeysRecursively` (regular expressions);
  - `csvFields` (`str_getcsv`);
  - `unique` (`mt_rand`).
- The modelled string functions count length in characters and case-map only ASCII letters. mbstring's multi-byte behaviour is not modelled.
- `Is::email`, `url`, `ip` and `macAddress` are left out: they use `filter_var`. `Is::timezone` is left out: it uses the system timezone database. `Is::snakeCase` and `Is::kebabCase` are left out: they rest on the regular-expression based `Str::snakeCase`.
- The regular-expression engine itself is not modelled. Each pattern of `Is::date`, `time` and `datetime` is written out as a fixed character layout. The layout accepts the one trailing "\n" that `$` without the D modifier allows.
- Singleton.Registry.InstanceByClass: `ReflectionClass::newInstanceArgs` is abstracted as a fresh `Instance` that records its class name and parameters. The `ReflectionException` for a class that does not exist is not modelled.
- Loose comparison is not modelled: `in_array` and `array_search` in src/StrList.php are modelled with strict equality. Numeric strings such as '1' and '01' are therefore distinct items.
- StrList.SortItems: `sort` is modelled as byte-wise string order. PHP's comparison of numeric strings as numbers is not modelled.
- PHP casts integer-like string keys to int keys. The model spells every key as a string and recognises integer keys by their canonical decimal form.
- PhpValue.IntVal: `intval` of floats, of arrays, and of numeric strings with an exponent is not modelled. Only a decimal prefix with optional whitespace and sign is parsed, saturating at the 64-bit bounds.
- `(string)` of an array is PHP's 'Array' with a warning, and is modelled as that string.
- Arr.Set: a final parent that is a non-null scalar is excluded by the precondition `SetAllowed`. PHP would fail or warn when writing into a string or number there.
- Arr.Remove: a final parent that is not an array is excluded by the precondition `RemoveAllowed`. There `array_key_exists` throws a TypeError.
- Arr.GetAfterSet: this and the other path lemmas assume segments that are non-empty (`ValidPath`). A key such as '.x' has an empty segment, and `set` and `get` then disagree about where it lives.
- DataTrait.Data.DataSetArray: with `merge`, integer keys are excluded by the precondition. Under `strict_types` they raise a TypeError in `dataSet(string $key, ...)`.
- DataTrait.MergeFlat: proved only for keys without dots and with unique keys. A dotted key in the merged array writes into nested arrays, and is covered by `Arr.Set`.
- DataTrait.Data.SetInt: the parameter is an int, as the public signature demands. `dataSetInt` accepts any value and applies `intval`.
- Str.Explode: the item function is modelled as a total function on strings. Its side effects are not modelled.
- Str.PadLeft: an empty filler with a string no longer than `length` makes the source loop forever, and is excluded by the precondition.
- Str.PadRight: an empty filler with a string no longer than `length` makes the source loop forever, and is excluded by the precondition.
- Arr.IndexOf: PHP objects are not modelled, so the `is_object` branch of src/Arr.php:212-213 is left out. On a string item, only a key in canonical integer form (such as '0' or '-1') reads a character; other numeric spellings, such as ' 1' or '01', read nothing in the model.
- Arr.Pluck: PHP objects are not modelled, so the `is_object` branch of src/Arr.php:305-306 is left out. An item is read only when it is an array.
- Str.WrapLinesVersusIntended: proved only for a non-empty list of non-empty words. Exploding the text on ' ' gives empty words wherever spaces are doubled, leading or trailing, and for those texts the model makes no claim about how the written and the intended lines relate.
- Str.WrapLinesIntendedKeepsWords: proved only for a non-empty list of non-empty words, for the same reason. For texts with doubled, leading or trailing spaces the model does not claim that the intended lines keep the words.
- PhpString.CharSet: the `a..z` range syntax of trim's character list is not modelled. Each character of the list, including '.', is taken literally.
- The tests' random inputs (`mt_rand`, `md5`, `microtime`) are replaced by fixed concrete values in the example lemmas.

## Findings

| source | as written | input that shows it | evidently intended | confidence | as-written member | corrected member |
|---|---|---|---|---|---|---|
| src/Str.php:567-572 | the break test compares the current line's length plus the word's length with `length` even when the line is still empty. A first word of at least `length` characters is therefore pushed off an empty first line, and the result starts with the separator | `wrap('abc', 2)` gives "\nabc" | 'abc': a word longer than the width stands on its own line, with no empty line before it | not executed | Str.WrapLeadingEmptyLine | Str.WrapLinesIntendedKeepsWords |
