# Community detection over a small social network, modelled in Dafny

The program reads users (join date, hashtags) and a friendship matrix. It
then computes a strength of connection for every ordered pair of users, and
finds the core users: users with more than `core` close friends, where a close
friend's strength is strictly above `ths`. For each core user it prints the
hashtags of the user and of its close friends. They are gathered into a
singly linked list that stays in strictly ascending `strcmp` order and never
holds a duplicate.

This project models those three pieces of `program.c`:

- `lexicographic.dfy` (module `Lexicographic`): the order `strcmp` puts on
  hashtags. `Less` compares one character at a time. `LexBefore` is the
  textbook definition (proper prefix, or a smaller character at the first
  difference). `Strcmp` gives the sign that `strcmp` returns.
- `tag_list.dfy` (module `TagLists`): the hashtag list (`list_t`) as a class
  `TagList`. Its field `items` holds the node values from head to foot. The
  `Valid()` invariant says the list is strictly ascending.
  `InsertUniqueInOrder` keeps the five cases of `insert_unique_in_order`:
  empty list, after the foot, equal to the head, before the head, and the
  `prev`/`check` walk. The walk either finds an equal node or links the new
  node in front of the first larger one.
- `strength.dfy` (module `Strength`): `compare_arrays`, `s_o_c` and
  `compute_arrays`. Friendship rows are `seq<seq<int>>`, read only.
  `users[u].strength[i]` becomes a two-dimensional array `strength[u, i]` of
  exact reals. The counts are naturals, specified by `UnionCount` and
  `IntersectCount` and tied to the sizes of the union and intersection sets.
- `core_users.dfy` (module `CoreUsers`): the classification loop of
  `check_core_user` and `get_hashtags`. The two thresholds `ths` and `core`
  are parameters. Each printed report (core user, close friends, hashtag
  list) is returned as a `CoreReport` value.

Three consequences of `program.c` that a reader may not expect:

- A three-user network in which every pair are friends gives strength 1.0
  only when each user is also marked as its own friend. Without self-loops
  each pair shares one friend out of three, so the strength is 1/3
  (`Strength.TriangleStrengths`).
- A zero union is never divided by. With flags that are 0 or 1, a pair that
  reaches the division are friends, so the second user lies in the union
  (`Strength.UnionCountPositive`). The model therefore needs no convention
  for a zero union.
- Self-pairs are not excluded. A user is its own close friend exactly when
  its self-strength is above `ths`. With `ths >= 0` and no self-loop, this
  cannot happen (`CoreUsers.CloseFriendsAreFriends`).

## Model

| member | source | states |
|---|---|---|
| `Lexicographic.Strcmp` | program.c:428-452 | the sign of `strcmp`: negative exactly when the first string sorts first, zero exactly when the strings are equal, positive exactly when the second sorts first |
| `Lexicographic.LexBeforeIsLess` | program.c:413-414 | a proper prefix, or a string with the smaller character at the first difference, sorts first in the character-by-character order |
| `Lexicographic.LessImpliesLexBefore` | program.c:413-414 | a string that sorts first in the character-by-character order is a proper prefix of the other, or has the smaller character at the first difference |
| `Lexicographic.LessIsLexBefore` | program.c:413-414 | the order that is used is the textbook lexicographic order: a proper prefix, or a smaller character at the first difference |
| `Lexicographic.LessTrichotomy` | program.c:428-452 | exactly one of less, equal and greater holds, so the branches on `strcmp` cover every case and never overlap |
| `Lexicographic.LessTransitive` | program.c:428-458 | the order is transitive, so a value above the foot is above every node and a value below the head is below every node |
| `TagLists.AscendingDeterminedByElems` | program.c:413-461 | two strictly ascending lists with the same elements are equal, so the list is determined by the set of hashtags inserted |
| `TagLists.TagList.constructor` | program.c:386-395 | `make_empty_list`: a valid list with no nodes |
| `TagLists.TagList.InsertUniqueInOrder` | program.c:415-461 | stays strictly ascending; its elements become the old elements plus `value`; unchanged if `value` was present (idempotent); `[value]` on an empty list; appended after a smaller foot; prepended before a larger head |
| `TagLists.AppendAscending` | program.c:428-432 | appending a value larger than the foot keeps the list strictly ascending, the value is new and is not below the head |
| `TagLists.PrependAscending` | program.c:437-441 | prepending a value smaller than the head keeps the list strictly ascending and the value is new |
| `TagLists.SpliceAscending` | program.c:443-458 | linking a value between a smaller `prev` and a larger `check` keeps the list strictly ascending and the value is new |
| `Strength.UnionCount` | program.c:220-225 | `union_count` never exceeds the number of users scanned |
| `Strength.IntersectCount` | program.c:226-229 | `intersect_count` never exceeds `union_count` |
| `Strength.UnionCountIsSize` | program.c:220-225 | `union_count` is the number of users who are a friend of either user |
| `Strength.IntersectCountIsSize` | program.c:226-229 | `intersect_count` is the number of users who are a friend of both users |
| `Strength.CountsAreSetSizes` | program.c:216-231 | the two counters are the sizes of the union and of the intersection of the two users' friend sets, and the intersection lies inside the union |
| `Strength.UnionCountPositive` | program.c:223-224 | an index where either user has a friend makes the union non-empty; for friends this index is `u2`, so there is no division by zero |
| `Strength.CountsSymmetric` | program.c:223-228 | both counts are the same with the two rows swapped |
| `Strength.Jaccard` | program.c:233 | the ratio `intersect_count / union_count` lies in [0, 1] |
| `Strength.StrengthOf` | program.c:237-247 | the strength is 0 when the friendship flag is 0, whatever neighbours are shared, and always lies in [0, 1] |
| `Strength.StrengthSymmetric` | program.c:216-247 | for a symmetric friendship matrix, the strength of `u1` to `u2` equals that of `u2` to `u1` |
| `Strength.TriangleStrengths` | program.c:216-247 | three users who are all friends: strength 1 with self-loops, 1/3 without them |
| `Strength.CompareArrays` | program.c:216-234 | stores the ratio of the intersection count to the union count at `strength[u1, u2]` and changes no other cell |
| `Strength.StrengthOfConnection` | program.c:237-248 | stores the strength of `u1` to `u2` (0 for non-friends) at `strength[u1, u2]` and changes no other cell |
| `Strength.ComputeArrays` | program.c:205-213 | writes the strength of every ordered pair of the `n` users, and no cell outside the `n` by `n` block |
| `CoreUsers.CloseFriendsOf` | program.c:308-317 | a user has at most as many close friends as there are users |
| `CoreUsers.CloseFriendsSpec` | program.c:305-317 | the close friends are strictly ascending indices below `n`, and `i` is one exactly when `strength[z, i] > ths` |
| `CoreUsers.CoreUsersSpec` | program.c:305-319 | core users come in ascending order, and `z` is one exactly when its close-friend count is strictly above `core` |
| `CoreUsers.CloseFriendsMonotone` | program.c:311 | raising `ths` never increases a user's close-friend count |
| `CoreUsers.CoreUsersMonotone` | program.c:311-319 | raising `ths` or `core` never increases the number of core users |
| `CoreUsers.CloseFriendsAreFriends` | program.c:305-317 | with computed strengths and `ths >= 0`, every close friend is a friend, so a user without a self-loop is not its own close friend |
| `CoreUsers.InsertEach` | program.c:334-346 | inserting one user's hashtags in turn keeps the list strictly ascending and adds exactly those hashtags |
| `CoreUsers.GetHashtags` | program.c:332-348 | the list stays strictly ascending and gains exactly the core user's hashtags and those of every close friend |
| `CoreUsers.CollectCloseFriends` | program.c:306-317 | the first `core_count` cells of `close_friend` are the close friends of `z` |
| `CoreUsers.ReportCoreUser` | program.c:319-323 | starting from an empty list, the report for a core user holds its close friends and a strictly ascending list of exactly its own and its close friends' hashtags |
| `CoreUsers.CheckCoreUser` | program.c:292-329 | the reported users are exactly the core users, in ascending order; each report holds that user's close friends and a strictly ascending hashtag list of exactly the user's and its close friends' hashtags |

## Left out

- Reading the input (`read_input`, `read_friend_rows`, and the `scanf` of `ths` and `core`) is left out because it is stdin I/O. The thresholds are parameters. The stray first flag written to `users[0].friend[0]` is also left out.
- All printing is left out because it is output only: `print_output`, `print_output_2`, the stage-three matrix dump, `print_stage_4_1`, `print_list`, the stage headers, and `main` with its stage order. `CheckCoreUser` returns what would be printed. `print_list` dereferences a null head when the list is empty; that is not modelled.
- Join dates and the stage-one "most hashtags" user are left out because the analysis does not use them.
- C `float` is not modelled: strengths and `ths` are exact reals and the counts are naturals, so rounding of `intersect_count / union_count` is left out.
- `malloc`, `free`, `assert` and `free_list` are left out. So is the node leaked when a duplicate is rejected. So are the fixed sizes (`MAX_USER`, `MAX_HASH_LEN`, `MAX_HASH_NUM`) and the unchecked `strcpy` into a node buffer one byte shorter than a stored hashtag. The population size `n` and each user's hashtag count are unbounded.
- `CoreUsers.CheckCoreUser` makes a new empty list for each core user just before gathering its hashtags. `program.c` makes one before the loop and frees and remakes it after each report. Either way each report starts from an empty list.
- `TagLists.TagList.InsertUniqueInOrder` holds the node values as a sequence, so the `head`, `foot` and `next` pointers and any aliasing between nodes are not modelled. The method requires the list to be strictly ascending already. `program.c` keeps this true by building every list from empty with this function alone. On an unsorted list the C code can add a duplicate or put the value in the wrong place: `[m, a, z]` plus `a` becomes `[a, m, a, z]` through the prepend branch. The requirement rules out such lists, which the program never builds.
- `Lexicographic.Strcmp` returns only -1, 0 or 1, because `program.c` uses only the sign of `strcmp`. Characters are compared by code point, which stands in for C's unsigned-char comparison.
- `Strength.StrengthOfConnection` requires the friendship flag of the pair to be 0 or 1, and `Strength.ComputeArrays` requires this of every flag. With any other nonzero flag, the C code could divide 0 by 0 and store NaN. Exact reals cannot represent NaN.
- `Strength.CompareArrays` requires a non-empty union, which is the condition for its division to be defined. Its only caller meets this for flags of 0 and 1.
