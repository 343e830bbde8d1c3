# school_cpp2 in Dafny

A model of the small, deterministic pieces of logic in the classroom programs
of school_cpp2, with their contracts proved. Console input and output are left
out: what a program reads becomes a parameter, and what it prints becomes a
result.

The model covers:

- **Doubly linked list.** The `Link` node and the `insert` splice of
  test/linked_list.cpp. Nodes live in an arena (a sequence indexed by
  handle), and a `Link*` is an `Option<Handle>`. The Thor / Odin / Freja
  scenario of `main` is replayed. (`LinkedList`, linked_list.dfy)
- **C strings, palindromes, range checking, pointer parameters.** Covers
  `strlen`, the three palindrome checks, `SafeArray`, and
  `process_optional_data` / `process_required_data` of
  ch16/ch16_practice.cpp. (`CStrings`, `Palindromes`, `RangeChecking`,
  `PointerParams`; ch16_practice.dfy)
- **`MyString`.** The class of ch17/ch17_practice.cpp, with its five special
  members, `c_str` and `length`. Assignment tests object identity, so objects
  live in a store indexed by handle. (`MyStrings`, ch17_practice.dfy)
- **Templates and RAII.** Covers `maximum`, `FixedArray<T, SIZE>`,
  `RAIIClass` and `ExceptionSafeClass::safe_operation` of
  ch18/chapter18_practice.cpp. (`Templates`, `Raii`; ch18_practice.dfy)
- **Insert and erase at an iterator.** The vector and list operations of
  ch19/ch19_book.cpp and ch19/ch19_hw.cc. An iterator is the index of the
  element it designates. (`SequenceEdits`, ch19_sequences.dfy)
- **`std::map`.** `operator[]`, `find` and in-order traversal, the word
  count of ch20/ch20_hw_1.cc, and the phone book of ch20/ch20_hw_2.cc.
  (`OrderedMaps`, `WordCount`, `PhoneBook`; ch20_maps.dfy)
- **Search and sort.** The linear search `my_find`, and `std::sort` followed
  by `std::binary_search`, of ch21. (`Algorithms`, ch21_algorithms.dfy)
- **Calculator.** The integer part of ch15/calculator.cpp: sum, difference,
  product, the y/n re-prompt loop and the factorial loop. (`Calculator`,
  ch15_calculator.dfy)

Three shared modules:

- `Wrappers` (wrappers.dfy): `Option` and `Result`.
- `MachineInt` (machine_int.dfy): the range of a 32-bit `int`, and the
  wrap-around of `static_cast<int>`.
- `LexOrder` (lex_order.dfy): the order `std::string` uses for `operator<`,
  with the facts about ascending sequences that the map traversal, `sort`
  and `binary_search` need.

Signed overflow is undefined behaviour in C++. So the arithmetic the source
performs on `int` carries a precondition that the result fits. A
`static_cast<int>` of a `size_t` is written out as the wrap-around modulo
2^32, which is what the conversion does.

A Dafny `char` stands for one C++ `char`, that is one byte, so a `string`
of the model is the byte sequence the program holds. Every literal in the
programs is ASCII, where a character and a byte coincide.

## Model

| member | source | states |
|---|---|---|
| LinkedList.NewLink | test/linked_list.cpp:5-6 | a new node holds its value and has both links null |
| LinkedList.Allocate | test/linked_list.cpp:25 | `new Link{v}` adds a detached node with value v under a fresh handle and leaves every existing node as it was |
| LinkedList.Insert | test/linked_list.cpp:11-22 | a null n returns p and a null p returns n, neither writing a link; otherwise the result is n, p.prev is n, p's old predecessor's succ is n, n.succ is p and n.prev is p's old predecessor (each stated for the aliasing cases where it still holds); no value changes, and no link other than n.succ, old-prev.succ, n.prev and p.prev is written |
| LinkedList.InsertPreservesConsistency | test/linked_list.cpp:16-20 | splicing a detached node before a node of a consistent arena keeps every forward link matched by a backward link and vice versa |
| LinkedList.InsertAtHead | test/linked_list.cpp:16-21 | inserting a detached node in front of a chain head gives a chain that starts at the new node and continues with the whole old chain |
| LinkedList.GodsChain | test/linked_list.cpp:29-31 | the arena Thor, Odin, Freja linked Freja <-> Odin <-> Thor is consistent, and a forward walk from Freja reads Freja, Odin, Thor |
| LinkedList.NorseGods | test/linked_list.cpp:25-31 | after Thor and the two inserts the arena is consistent, the returned head has no predecessor, walking forward reads Freja, Odin, Thor, and Thor's prev is Odin with no successor |
| CStrings.StrLen | ch16/ch16_practice.cpp:387 | `strlen` is the position of the first terminator: every character before it is non-NUL |
| CStrings.Literal | ch16/ch16_practice.cpp:419 | a string literal's buffer is terminated and denotes exactly the literal's characters |
| Palindromes.MirroredIffReversed | ch16/ch16_practice.cpp:396-404 | a sequence reads the same from both ends exactly when it equals its reverse |
| Palindromes.CheckHalves | ch16/ch16_practice.cpp:397-403 | comparing only the first half with the second half decides whether the whole sequence mirrors itself, in both directions |
| Palindromes.IsPalindromeCStyle | ch16/ch16_practice.cpp:383-394 | a null pointer gives false; otherwise true exactly when the characters before the terminator mirror themselves |
| Palindromes.IsPalindromeString | ch16/ch16_practice.cpp:396-404 | true exactly when the string equals its reverse; strings of length 0 or 1 are palindromes |
| Palindromes.IsPalindromeArray | ch16/ch16_practice.cpp:406-413 | true exactly when the first `size` elements mirror themselves; sizes 0 and 1 give true |
| Palindromes.CStyleWordsMirrored | ch16/ch16_practice.cpp:419 | racecar, madam and hannah are palindromes; hello and world are not |
| Palindromes.StringWordsMirrored | ch16/ch16_practice.cpp:426 | level and deed are palindromes; programming and openai are not |
| Palindromes.CStylePalindromeDemo | ch16/ch16_practice.cpp:418-423 | the C-string verdicts are true, false, true, false, true |
| Palindromes.StringPalindromeDemo | ch16/ch16_practice.cpp:425-430 | the `std::string` verdicts are true, false, true, false |
| Palindromes.ArrayPalindromeDemo | ch16/ch16_practice.cpp:432-442 | {1, 2, 3, 2, 1} is a palindrome and {1, 2, 3, 4, 5} is not |
| RangeChecking.NewSafeArray | ch16/ch16_practice.cpp:284 | `SafeArray(n)` has size n and every element 0 |
| RangeChecking.At | ch16/ch16_practice.cpp:287-293 | `at` fails exactly when the index is not below the size, reporting that index and size; otherwise it yields the stored element |
| RangeChecking.Subscript | ch16/ch16_practice.cpp:296-298 | within range, unchecked `operator[]` agrees with a successful `at` |
| RangeChecking.FillWithValues | ch16/ch16_practice.cpp:302-306 | the size is kept and element i becomes `static_cast<int>(i * 10)`, which is 10 * i while that fits |
| RangeChecking.RangeCheckingDemo | ch16/ch16_practice.cpp:312-323 | after the fill, `at(0)` .. `at(4)` read 0, 10, 20, 30, 40 and `at(10)` throws for index 10 and size 5 |
| PointerParams.ProcessOptionalData | ch16/ch16_practice.cpp:113-121 | a null pointer stays null; otherwise the pointee is doubled |
| PointerParams.ProcessRequiredData | ch16/ch16_practice.cpp:131-134 | the referent is tripled |
| PointerParams.PointersVsReferencesDemo | ch16/ch16_practice.cpp:148-164 | 10 becomes 20 through the pointer, null is left alone, and 7 becomes 21 through the reference |
| MyStrings.CStr | ch17/ch17_practice.cpp:114 | `c_str()` is always a terminated buffer denoting the object's text, and denotes "" for a null buffer |
| MyStrings.Length | ch17/ch17_practice.cpp:115 | `length()` equals the number of characters of the text and `strlen(c_str())` |
| MyStrings.StrCopy | ch17/ch17_practice.cpp:38-40 | copying into an array of `strlen + 1` characters keeps the length and the text |
| MyStrings.Default | ch17/ch17_practice.cpp:30-32 | the default object has a null buffer, size 0 and text "" |
| MyStrings.FromCString | ch17/ch17_practice.cpp:35-45 | a null argument gives the default state; otherwise the object owns a buffer whose size is `strlen` of the argument and whose text is the argument's |
| MyStrings.FromLiteral | ch17/ch17_practice.cpp:216 | constructing from a literal gives an object with that text and length |
| MyStrings.CopyOf | ch17/ch17_practice.cpp:48-57 | a copy has the source's size and text, and is null exactly when the source is |
| MyStrings.CopyConstruct | ch17/ch17_practice.cpp:48-57 | the new object has the source's length and text, and every existing object is untouched |
| MyStrings.MoveConstruct | ch17/ch17_practice.cpp:60-66 | the new object is the source's old state, the source becomes null with size 0, and every other object is untouched |
| MyStrings.CopyAssign | ch17/ch17_practice.cpp:69-88 | self-assignment changes nothing; otherwise the target gets the source's length and text and every other object is untouched |
| MyStrings.MoveAssign | ch17/ch17_practice.cpp:91-105 | self-assignment changes nothing; otherwise the target takes the source's state and the source becomes null with size 0, with every other object untouched |
| MyStrings.CopySteps | ch17/ch17_practice.cpp:215-223 | the original, its copy-constructed copy and the copy-assigned copy all hold the literal's text |
| MyStrings.CopyVsMove | ch17/ch17_practice.cpp:212-236 | at the end of the scope the moved-from original is null with size 0, both copies and moved1 hold the first literal, moved2 holds the second, and the moved-from temporary is null |
| MyStrings.CopyVsMoveDemo | ch17/ch17_practice.cpp:216-233 | with the source's literals: "Hello World" three times, "Temporary" of length 9, and the original left null |
| Templates.Maximum | ch18/chapter18_practice.cpp:15-18 | the result is one of the two arguments: a when a > b, otherwise b |
| Templates.MaximumIsUpperBound | ch18/chapter18_practice.cpp:15-18 | for an irreflexive, asymmetric `>`, neither argument is greater than the result |
| Templates.StringMaximumIsUpperBound | ch18/chapter18_practice.cpp:15-18 | on strings the result is at least each argument in the lexicographic order |
| Templates.MaximumDemo | ch18/chapter18_practice.cpp:389-392 | `maximum(5, 3)` is 5 and `maximum("hello", "world")` is "world" |
| Templates.Empty | ch18/chapter18_practice.cpp:29-32 | a new `FixedArray` has size 0, capacity SIZE, and meets size <= capacity |
| Templates.PushBack | ch18/chapter18_practice.cpp:35-41 | it throws "Array is full!" exactly when size equals capacity, and then changes nothing; otherwise the item is stored at the old size and the size grows by one; earlier elements and the capacity never change |
| Templates.PushAll | ch18/chapter18_practice.cpp:400-401 | successive `push_back` calls keep the capacity, never lose an element already stored, and an exception they raise is "Array is full!" |
| Templates.PushAllFills | ch18/chapter18_practice.cpp:35-41 | pushing a sequence succeeds exactly when it fits and appends it whole; otherwise the items that fitted stay (no roll-back) and "Array is full!" is raised |
| Templates.FixedArrayDemo | ch18/chapter18_practice.cpp:399-401 | pushing 10 and 20 into a `FixedArray<int, 5>` gives size 2 of capacity 5 holding 10, 20 |
| Raii.NewRaii | ch18/chapter18_practice.cpp:134-140 | `RAIIClass(n)` has size n and element i equal to `static_cast<int>(i)`, which is i while that fits |
| Raii.CopyElements | ch18/chapter18_practice.cpp:143-149 | the copy constructor gives the same size and the same elements |
| Raii.CopyAssign | ch18/chapter18_practice.cpp:152-164 | self-assignment changes nothing; otherwise the target gets the source's size and elements and no other object changes |
| Raii.RaiiDemo | ch18/chapter18_practice.cpp:422-423 | `obj1(5)` holds 0 .. 4 and its copy holds the same |
| Raii.NewSafeObject | ch18/chapter18_practice.cpp:344-348 | `make_unique<int[]>(n)` gives n zero elements |
| Raii.SafeOperation | ch18/chapter18_practice.cpp:351-364 | the size is kept and element i becomes `static_cast<int>(i * 2)`, which is 2 * i while that fits |
| SequenceEdits.InsertAt | ch19/ch19_book.cpp:29 | `insert(pos, x)` grows the sequence by one, puts x at pos, keeps earlier elements, shifts later ones right by one, and returns pos |
| SequenceEdits.EraseAt | ch19/ch19_book.cpp:30 | `erase(pos)` shrinks the sequence by one, keeps earlier elements, shifts later ones left by one, and returns pos |
| SequenceEdits.InsertEraseRoundTrip | ch19/ch19_book.cpp:29-30 | erasing through the iterator `insert` returned restores the original sequence and designates the element that was at pos |
| SequenceEdits.ListIteratorAfterInsert | ch19/ch19_book.cpp:45-48 | a list iterator taken before `insert` still designates its element afterwards, one place further when it was at or past pos |
| SequenceEdits.ListIteratorAfterErase | ch19/ch19_book.cpp:45-49 | a list iterator to any element other than the erased one still designates it afterwards, one place back when it was past it |
| SequenceEdits.Advance | ch19/ch19_book.cpp:22-25 | n increments move the iterator exactly n places, staying within the range |
| SequenceEdits.BookDemo | ch19/ch19_book.cpp:15-49 | the vector and the list both end as 1 .. 7 with p at index 3 on 4, and the list's q still designates 5 |
| SequenceEdits.PresidentsDemo | ch19/ch19_hw.cc:27-57 | after inserting and erasing "John Adams" the vector is the original ten names with the iterator on "Thomas Jefferson"; the list copy has the same names in the same order and ends the same after "James Madison" |
| OrderedMaps.Subscript | ch20/ch20_hw_1.cc:15 | `m[k]` adds k with the default value when k is absent and otherwise leaves m as it was; other keys keep their values |
| OrderedMaps.Find | ch20/ch20_hw_2.cc:32 | `find(k) != end()` exactly when k is a key, and then it designates k's value |
| OrderedMaps.MinimumExists | ch20/ch20_hw_1.cc:17 | every non-empty set of keys has a least key, so a traversal can always go on |
| OrderedMaps.Least | ch20/ch20_hw_1.cc:17 | the key visited next is smaller than every other remaining key |
| OrderedMaps.Traverse | ch20/ch20_hw_1.cc:17-18 | the traversal visits every key exactly once, in strictly ascending order, each with its mapped value |
| WordCount.Occ | ch20/ch20_hw_1.cc:14-15 | the count of a word in a token sequence is its multiplicity, positive exactly when the word occurs |
| WordCount.CountNext | ch20/ch20_hw_1.cc:15 | `++words[s]` turns the counts of the tokens seen into the counts of those tokens plus s |
| WordCount.CountWords | ch20/ch20_hw_1.cc:13-15 | the keys are exactly the distinct tokens, and each count is that token's number of occurrences, at least 1 |
| WordCount.TallyCoversTokens | ch20/ch20_hw_1.cc:14-15 | over a duplicate-free key list covering all tokens, the occurrence counts add up to the number of tokens |
| WordCount.SumCountsIsTally | ch20/ch20_hw_1.cc:17-18 | the printed counts add up to the occurrences of the printed keys |
| WordCount.WordFrequencies | ch20/ch20_hw_1.cc:13-18 | the printed lines are the distinct tokens in strictly ascending order, each with its number of occurrences (at least 1), and the counts sum to the number of tokens |
| PhoneBook.Assign | ch20/ch20_hw_2.cc:15 | `book[name] = number` makes name a key bound to number and leaves every other entry as it was |
| PhoneBook.AssignAll | ch20/ch20_hw_2.cc:15-24 | after the assignments the keys are exactly the names assigned, and a name not assigned again later keeps the number it was given |
| PhoneBook.ContactNamesDistinct | ch20/ch20_hw_2.cc:15-24 | the ten contact names are pairwise different |
| PhoneBook.Populate | ch20/ch20_hw_2.cc:15-24 | the book has exactly the ten names as keys, each bound to its listed number |
| PhoneBook.Lookup | ch20/ch20_hw_2.cc:32-36 | the guarded lookup finds a number exactly when the name is a key, yields that name's number, and never inserts |
| PhoneBook.ContactNamesAscending | ch20/ch20_hw_2.cc:40-41 | the contacts were added in strictly ascending order of name |
| PhoneBook.PhoneBookDemo | ch20/ch20_hw_2.cc:11-42 | a name is found exactly when it is one of the ten, "Alice" gives 555-1234, and the traversal lists the contacts Alice .. Julia in the order given |
| Algorithms.MyFind | ch21/ch21_hw_1.cc:11-16 | the result lies in [first, last]; it is the first position holding val, and it is last exactly when val does not occur in the range |
| Algorithms.FindBookDemo | ch21/ch21_hw_1.cc:19-48 | the search stops at the title exactly when the library has it, and at position 3 for "Dune" |
| Algorithms.InsertSorted | ch21/ch21_hw_2.cc:25 | inserting one element adds exactly that element to the multiset |
| Algorithms.InsertSortedAscending | ch21/ch21_hw_2.cc:25 | inserting into an ascending sequence keeps it ascending |
| Algorithms.Sort | ch21/ch21_hw_2.cc:25 | the result is ascending and a permutation of the input |
| Algorithms.SortIsDetermined | ch21/ch21_hw_2.cc:25 | any two ascending permutations of the same input are equal, so the outcome of `sort` does not depend on its algorithm |
| Algorithms.BinarySearch | ch21/ch21_hw_2.cc:36 | on an ascending sequence the search is true exactly when the title is an element |
| Algorithms.SortedBooksAscending | ch21/ch21_hw_2.cc:25 | the expected sorted order of the ten titles is strictly ascending |
| Algorithms.SortedBooksListBooks | ch21/ch21_hw_2.cc:14-25 | the expected sorted order lists exactly the ten distinct titles of the library |
| Algorithms.SortedLibrary | ch21/ch21_hw_2.cc:14-25 | every ascending permutation of the library is the expected sorted order |
| Algorithms.LibraryDemo | ch21/ch21_hw_2.cc:14-40 | the sorted library starts with "1984" and is a permutation of the original, and the search reports exactly whether the title is in the library |
| LexOrder.LexLess | ch21/ch21_hw_2.cc:25 | the `std::string` `<` that `sort` uses: a proper prefix is below its extensions, nothing is below the empty string, and the first characters of an ordered pair are ordered too |
| LexOrder.LexLessMeansSpec | ch21/ch21_hw_2.cc:25 | comparing one character at a time is the standard's ordering: a proper prefix, or a smaller character at the first difference |
| LexOrder.LexLessIrreflexive | ch21/ch21_hw_2.cc:25 | no string is below itself |
| LexOrder.LexLessTransitive | ch21/ch21_hw_2.cc:25 | the string order is transitive |
| LexOrder.LexLessTotal | ch21/ch21_hw_2.cc:25 | any two different strings are ordered one way or the other |
| LexOrder.StrictlyAscendingUnique | ch20/ch20_hw_1.cc:17-18 | two strictly ascending sequences with the same elements are equal, so the traversal order is fixed by the key set |
| Calculator.Add | ch15/calculator.cpp:22 | the sum fits in an `int`, and subtracting rval from it gives back lval |
| Calculator.Subtract | ch15/calculator.cpp:23 | the difference fits in an `int`, and adding rval to it gives back lval |
| Calculator.Mult | ch15/calculator.cpp:24 | the product fits in an `int`, and is 0 exactly when a factor is 0 |
| Calculator.AddSubtractInverse | ch15/calculator.cpp:22-23 | the printed sum and difference each undo the other |
| Calculator.ReadChar | ch15/calculator.cpp:39 | `cin >> c` skips whitespace and takes the first other character; it finds none exactly when only whitespace is left |
| Calculator.PromptAnswer | ch15/calculator.cpp:39-46 | the loop only ever settles on y, Y, n or N |
| Calculator.PromptAnswerIsFirstYesNo | ch15/calculator.cpp:42-46 | the loop settles on the first y, Y, n or N of the input, and finds none exactly when the input holds none |
| Calculator.FactMonotone | ch15/calculator.cpp:50-52 | factorials grow with their argument, which bounds every product of the loop by 12! |
| Calculator.FactorialLoop | ch15/calculator.cpp:50-52 | starting from 1, the loop yields lval! for lval >= 1 and 1 for lval <= 0, and for lval <= 12 no intermediate product leaves the `int` range |
| Calculator.Calculate | ch15/calculator.cpp:22-56 | sum, difference and product as above; the factorial is lval! when the answer is y or Y, and stays 1 on n or N |

## Left out

- Console input and output (`cin`, `getline`, `cout`, `print_operation`,
  `print`, the traversal printing). What is read is a parameter; what is
  printed is a result.
- The quotient `lval / (float)rval` of ch15/calculator.cpp:25,
  `maximum(3.14, 2.71)`, `add_different_types` and the `Length` /
  `Temperature` classes. They are floating point.
- `square` and `square_old_style` (ch18/chapter18_practice.cpp:59-69,
  409-410). They print a line and return the value squared; the concepts
  demo that calls them is outside the templates modelled here.
- Multi-byte text. A character of the model is one byte of the source, so
  a non-ASCII literal would be a different sequence here than in C++; the
  programs contain none.
- Vector capacity, `reserve` and `resize` (ch17/ch17_practice.cpp:183-207,
  ch18/chapter18_practice.cpp:297-332). Capacity is implementation-defined.
- `LeakyClass`, `BadClass`, `GoodClass`, `FileWrapper`, `Resource` and the
  `unique_ptr` / `shared_ptr` demos, along with `new` and `delete`
  themselves. They are about memory and file lifetime, which a value model
  does not have.
- `span`, concepts and `enable_if` (ch16/ch16_practice.cpp:177-227), the
  array initialisation and copying demos, and the C-string printing demo.
  They print only.
- `reassign_pointer` and `print_array_with_pointers`. They are pointer
  re-targeting and printing only.
- ch17/ch17_hw.cpp. Its point is which special member gets called, and the
  contents of a moved-from `std::string` are unspecified.
- test/linked_list.cpp:26. `string norse_value = *norse_gods;` does not
  type-check, since `Link` has no conversion to `string`. Reachability and
  leaking of nodes are not modelled either; the source never frees them.
- `RAIIClass::operator[]`, `getSize` and `FixedArray::capacity`. They are
  plain accessors; `Size`, `Capacity` and `Get` read the state they expose.
- `SafeArray::at` and `FixedArray::operator[]` return references that
  callers could write through. The model reads through them only, because
  the programs never write through them.
- Calculator.PromptAnswer: when the input runs out before a y, Y, n or N,
  the source has no defined outcome. If not even the first extraction
  succeeds, the loop condition reads the uninitialised `factorial_prompt`
  (ch15/calculator.cpp:38-42), which is undefined behaviour. If at least
  one character was read, a failed extraction leaves it as it was and the
  loop never ends. The model returns `None` in both cases.
- Calculator.FactorialLoop: requires `lval <= 12`, because 13! overflows a
  32-bit `int`, which is undefined behaviour.
- WordCount.CountWords: requires at most `INT_MAX` tokens, so that no
  count can overflow its `int`.
- WordCount.WordFrequencies: the tokens are given already split. The
  whitespace splitting of `cin >> s` is not modelled.
- Calculator.Mult: states the zero-product property rather than the exact
  quotient relation `product / rval == lval`, which is expensive for the
  solver. `Calculate` still states `product == lval * rval`.
- Algorithms.Sort is an insertion sort. `std::sort` may use any
  algorithm, and `SortIsDetermined` shows that every ascending permutation
  is the same sequence, so the outcome agrees.
- SequenceEdits.BookDemo: the vector's second iterator `q` is invalidated
  by `insert` and never used again, so the model does not track it.
