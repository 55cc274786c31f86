# MenuCpp in Dafny

A model of the terminal program in `MenuCpp/main.cpp`. The program keeps employee records in a bounded last-in-first-out stack and drives everything from a three-item menu (New, Display, Delete) navigated with the arrow keys.

The model has four modules, one per concern of the program:

- `Employees` (`employees.dfy`): the `Employee` record and the name rule of `isValidEmployeeName`: ASCII letters and spaces, so the empty name passes. It also holds the id rule of `addEmployee`: non-negative and not already in the stack. Finally it defines `WellKeyed`, the invariant that the stored ids are non-negative and pairwise distinct, with lemmas on how pushing and popping affect it.
- `EmployeeStack` (`stack.dfy`): the class `Stack` with the source's fields `size`, `top` (-1 when empty) and `items` (an `array<Employee>`). `Valid()` states `items.Length == size` and `-1 <= top < size`. `Contents()` is the abstract value: the slots `0..top`, bottom first. The methods are `Push`, `Pop` (an empty stack gives `Failure(StackEmpty)` where the source throws), `Display` (top to bottom, or the empty notice), `IsIdUnique` (a linear scan) and `GetSize` (`top + 1`). A client method, `CapacityTwoScenario`, follows a stack of capacity 2 through three pushes, one display and three pops, and proves the outcome of each step from the contracts.
- `Menu` (`menu.dfy`): the cursor (`0..2`), the arrow-key escape decoder and the key loop of `main`. The decoder is a three-state machine (`Idle`, `SawEscape`, `SawBracket`) given by the pure functions `Feed` (one byte), `FeedAll` (a sequence of bytes) and `Machine` (a sequence from the initial menu). They model the byte tests of MenuCpp/main.cpp:202-213. They are the specification the other Menu members are stated against. The lemmas say what each key sequence does to the `Machine` state. `RunMenu` has the loop shape of `main`: it reads up to three bytes per iteration with nested tests. It is proved to end in the same cursor and the same activated items as `Machine`.
- `Session` (`session.dfy`): what happens on Enter. `AddEmployee` has the capacity guard, the id reprompt loop (`ReadId`), the name reprompt loop (`ReadName`) and the push. Its whole outcome contract is the predicate `AddsEmployee`. `Activate` dispatches New, Display or Delete on the cursor, and for New it carries `AddsEmployee` unchanged. Both preserve `WellKeyed`. A client method, `NewItemScenario`, proves three outcomes of New from the contracts: a record added to an empty stack, a full stack refused, and no name asked for when no id was accepted.

Typed-in ids and names are modelled as the finite sequence of entries the user types, in order. Keystrokes are modelled as a finite sequence of the byte values `getch` returns. When the entries run out before one is accepted, the model reports `NoAcceptableId` or `NoValidName`; the program would keep waiting for input.

## Model

| member | source | states |
|---|---|---|
| `Employees.IsValidEmployeeName` | MenuCpp/main.cpp:133-140 | the result is true exactly when every character of the name is an ASCII letter or a space |
| `Employees.NameExamples` | MenuCpp/main.cpp:133-140 | "Ann Lee" and the empty name are accepted; "Ann3" is rejected |
| `Employees.AcceptedIdKeepsWellKeyed` | MenuCpp/main.cpp:150-176 | pushing a record whose id is non-negative and unused keeps all stored ids non-negative and pairwise distinct |
| `Employees.DuplicateIdBreaksWellKeyed` | MenuCpp/main.cpp:159-163 | without the uniqueness test the invariant fails: pushing a record whose id is already stored gives two records with the same id |
| `Employees.PrefixKeepsWellKeyed` | MenuCpp/main.cpp:70-75 | what a pop leaves (a prefix of the records) keeps distinct, non-negative ids |
| `EmployeeStack.Stack.constructor` | MenuCpp/main.cpp:55-59 | a stack of capacity `size > 0` starts empty (`top == -1`) over a fresh array of `size` slots |
| `EmployeeStack.Stack.Push` | MenuCpp/main.cpp:61-68 | fails exactly when the stack is full, and then changes neither `top` nor any slot; otherwise puts the record on top, grows the contents by exactly that record and leaves every other slot as it was |
| `EmployeeStack.Stack.Pop` | MenuCpp/main.cpp:70-75 | on an empty stack fails with `StackEmpty` and changes nothing; otherwise returns the most recently pushed record and removes it, leaving the earlier records in order; the array is never written |
| `EmployeeStack.Stack.Display` | MenuCpp/main.cpp:77-86 | the empty notice exactly when the stack is empty; otherwise every stored record, from the top down to the bottom |
| `EmployeeStack.Stack.IsIdUnique` | MenuCpp/main.cpp:88-95 | true exactly when no stored record carries the id |
| `EmployeeStack.Stack.GetSize` | MenuCpp/main.cpp:97-99 | the number of stored records, always within `0..size` |
| `EmployeeStack.PushThenPop` | MenuCpp/main.cpp:61-75 | on a stack that is not full, push then pop returns the pushed record unchanged and restores the previous contents |
| `Menu.Up` | MenuCpp/main.cpp:207 | the up arrow moves the cursor one item up and wraps from the first item to the last |
| `Menu.Down` | MenuCpp/main.cpp:209 | the down arrow moves the cursor one item down and wraps from the last item to the first |
| `Menu.ArrowUpMovesUp` | MenuCpp/main.cpp:202-207 | after any keys that leave no escape sequence open, ESC '[' 'A' moves the cursor up and changes nothing else |
| `Menu.ArrowDownMovesDown` | MenuCpp/main.cpp:202-210 | after any keys that leave no escape sequence open, ESC '[' 'B' moves the cursor down and changes nothing else |
| `Menu.ThreeDownsReturn` | MenuCpp/main.cpp:208-209 | three down arrows bring the menu back to the state it was in |
| `Menu.EnterActivates` | MenuCpp/main.cpp:213-226 | Enter outside an escape sequence activates the item under the cursor and leaves the cursor where it is |
| `Menu.SecondByteDiscarded` | MenuCpp/main.cpp:202-204 | ESC followed by any byte other than '[' is consumed without effect, even when that byte is ESC or Enter |
| `Menu.ThirdByteDiscarded` | MenuCpp/main.cpp:204-210 | ESC '[' followed by any byte other than 'A' or 'B' is consumed without effect |
| `Menu.OtherByteIgnored` | MenuCpp/main.cpp:202-213 | outside an escape sequence, a byte other than ESC and Enter has no effect |
| `Menu.FeedAllAppend` | MenuCpp/main.cpp:199-200 | reading keys in two parts ends in the same state as reading them all at once |
| `Menu.RunMenu` | MenuCpp/main.cpp:199-213 | the key loop ends with the cursor and the activated items that the three-state decoder gives for the same bytes, also when the bytes end inside an escape sequence |
| `Session.ReadId` | MenuCpp/main.cpp:150-164 | stops at the first entry that is non-negative and unused; every entry before it is negative or in use; it reports when no entry passes |
| `Session.ReadName` | MenuCpp/main.cpp:166-174 | stops at the first entry made of letters and spaces only; every entry before it has another character |
| `Session.AddEmployee` | MenuCpp/main.cpp:142-183 | refuses exactly when the stack already holds `stackSize` records. Otherwise it pushes the record made of the first acceptable id and the first valid name, and leaves the stack unchanged on every other outcome. A missing valid name is reported only after some id was accepted. A push refusal is impossible when `stackSize` is the capacity. It keeps `WellKeyed` |
| `Session.Activate` | MenuCpp/main.cpp:213-237 | Enter on New gives exactly the outcome and new contents that `AddEmployee` promises. On Display it lists the stack top to bottom without changing it. On Delete it pops the top record or reports the empty stack. Each keeps `WellKeyed` |

## Left out

- Raw terminal input (`getch`, termios, `conio`) and the platform `#ifdef` branches: keystrokes are a sequence of byte values given as input.
- `clearScreen`, the colour codes and the layout drawn by `displayMenu`, and the text of messages: rendering only. `Display` returns the records it would print.
- The "Press Enter to return to the menu" waits after each action. These loops read keys from the same input as the menu and consume bytes up to the next Enter. `RunMenu` does not model that consumption: it treats the activations as events and leaves their effect to `Activate`.
- `cin` parsing of the id, and reading of names with `getline`: the model receives the typed values already parsed. A non-numeric id entry is not modelled. In the program, that entry makes `cin >> emp.id` store 0 and fail. If id 0 is unused, the id loop accepts it. The following `getline` then fails too and leaves the name empty, and the empty name passes. So the record `(0, "")` is pushed. If id 0 is already in use, the id prompt repeats forever.
- Endless reprompting: the program waits for more input without limit. The model stops and reports `NoAcceptableId` or `NoValidName` when the given entries are used up.
- The 32-bit width of the `int` id and of the stack size: ids are unbounded integers.
- `isalpha` is taken in the "C" locale (ASCII letters only). Other locales and negative `char` values are not modelled.
- The startup prompt for the stack size and the exit for a size `<= 0`: this appears only as the constructor's precondition `size > 0`.
- `new[]`/`delete[]` and the destructor: memory management.
- C++ exceptions: the failed `pop` returns `Failure(StackEmpty)` and `Activate` reports it as the program's `catch` does.
- The main loop's combination of `RunMenu` with `Activate` over one whole run is not one member. `RunMenu` gives the sequence of activated items, and `Activate` gives the effect of each one.
