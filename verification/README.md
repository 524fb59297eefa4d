# Bambu account store, modelled in Dafny

This project models the account store of BambuStudio's GUI: `AccountManager` keeps an
ordered `std::vector<BambuAccount>` in memory, each record carrying a `user_id`, display
data, an authentication token and an `is_active` flag, and persists the list as a JSON array
in `bambu_accounts.json` under the application's data directory.

Files:

- `results.dfy` — `Option` (a pointer that may be null) and `Result` (a value or a thrown error).
- `json.dfy` — JSON documents as trees (`JVal`) and the library's `contains`.
- `bambu_account.dfy` — the `BambuAccount` record, its default constructor, `to_json` and
  `from_json`, with the round trip and the decoding rules.
- `account_list.dfy` — what each manager operation does to the list, as functions of the list
  (`Added`, `Removed`, `WithActive`, `Document`, `Loaded`, …), the store's intended invariant
  (`Consistent`: unique ids, and exactly one active record unless the list is empty) and the
  lemmas about them.
- `account_manager.dfy` — the class `AccountManager`, whose methods change the `accounts`
  field in place with the same loops as the C++ and are proved equal to those functions.
  A ghost field `saves` records every document handed to the file writer, so "saves" and
  "does not save" are both stated.
- `example_session.dfy` — client sessions: two adds, a switch, a remove, a switch to an
  unknown id, and a save read back by a second manager.

Behaviour of the code that a reader might not expect, which the model keeps:

- `switch_account` with an unknown id returns false and does not save, but its single pass
  has already set every flag to false, so no record is active afterwards.
- `load_accounts` clears the list as soon as the file has parsed; a document that is not an
  array leaves the list empty.
- `from_json` throws when a present key has the wrong kind of value. Inside `load_accounts`
  this happens after the list was cleared, so the list keeps the records decoded before the
  failing item (`DecodeItems`).
- Adding a second account leaves the first one active; the new one is forced inactive.
- `add_account` with a known id copies the caller's `is_active` verbatim, which can leave
  zero or two active records; `AddExistingConsistentIff` and `AddExistingFlagMismatch` state exactly when.
- `from_json` of a value that is not an object yields the default account, because the
  library's `contains` is false for non-objects.
- In the constructor (src/slic3r/GUI/AccountManager.cpp:14) the local variable `data_dir` is
  in scope in its own initialiser, so `data_dir()` names the variable rather than the host's
  function. `boost::filesystem::path` has no call operator, so that line is ill-formed as
  written (an inference from the language rules; nothing was compiled) and has no behaviour
  of its own to model. The model takes the evident intent: the host's data directory is a
  constructor parameter.

## Model

| member | source | states |
|---|---|---|
| `BambuAccounts.ToJsonShape` | src/slic3r/GUI/AccountManager.hpp:26-35 | `to_json` gives an object with exactly the six keys; the five text fields as strings and `is_active` as a Boolean, each holding the field's value |
| `BambuAccounts.RoundTrip` | src/slic3r/GUI/AccountManager.hpp:26-46 | `from_json(to_json(a))` succeeds and gives back `a`, for every account |
| `BambuAccounts.FromJsonFailsIffIllTyped` | src/slic3r/GUI/AccountManager.hpp:37-46 | `from_json` throws exactly when one of the six keys is present with a value of the wrong kind (a non-string text field, a non-Boolean `is_active`) |
| `BambuAccounts.FromJsonFields` | src/slic3r/GUI/AccountManager.hpp:24-46 | on a well-typed value, each present key is copied and each absent key leaves the default-constructed value (empty string, not active); a non-object decodes to the default account |
| `BambuAccounts.FromJsonIgnoresOtherKeys` | src/slic3r/GUI/AccountManager.hpp:37-46 | two objects that agree on the six keys decode to the same result, whatever other keys they hold |
| `AccountLists.IndexOf` | src/slic3r/GUI/AccountManager.cpp:48-51 | the `find_if` by id: the first index whose id matches, or none exactly when no record has the id |
| `AccountLists.IndexOfActive` | src/slic3r/GUI/AccountManager.cpp:90-98 | the first index whose flag is set, or none exactly when no record is active |
| `AccountLists.AddNewAppends` | src/slic3r/GUI/AccountManager.cpp:34-45 | a new id appends one record at the end, earlier records unchanged; it equals the argument except that it is active iff the list was empty |
| `AccountLists.AddExistingReplaces` | src/slic3r/GUI/AccountManager.cpp:25-31 | a known id overwrites its first record with the argument verbatim, flag included; length, position and every other record unchanged |
| `AccountLists.AddKeepsIdsUnique` | src/slic3r/GUI/AccountManager.cpp:22-46 | if the ids were pairwise distinct before an add, they are after |
| `AccountLists.AddNewKeepsConsistent` | src/slic3r/GUI/AccountManager.cpp:34-45 | adding a new id preserves "ids unique and exactly one active unless empty" |
| `AccountLists.AddExistingConsistentIff` | src/slic3r/GUI/AccountManager.cpp:25-31 | from a consistent list, overwriting a known id keeps consistency iff the argument's flag equals the replaced record's |
| `AccountLists.AddExistingFlagMismatch` | src/slic3r/GUI/AccountManager.cpp:25-31 | from a consistent list, an active argument over an inactive record leaves exactly two active records (it and the old active one); an inactive argument over the active record leaves none |
| `AccountLists.RemoveErasesFirst` | src/slic3r/GUI/AccountManager.cpp:48-67 | an absent id leaves the list as it was; a present one erases the first record with it, keeps the others in order, and flags the new first record active when the erased one was active |
| `AccountLists.RemoveKeepsConsistent` | src/slic3r/GUI/AccountManager.cpp:53-60 | removal preserves "ids unique and exactly one active unless empty" |
| `AccountLists.WithActiveSetsFlags` | src/slic3r/GUI/AccountManager.cpp:74-81 | the flag pass sets each record's flag to "its id equals the argument" and changes no other field, length or order |
| `AccountLists.SwitchAbsentClearsFlags` | src/slic3r/GUI/AccountManager.cpp:71-87 | with an id no record has, the pass leaves no record active |
| `AccountLists.SwitchPresentKeepsConsistent` | src/slic3r/GUI/AccountManager.cpp:74-81 | with unique ids and the id present, its record becomes the only active one, so the list is consistent whatever the flags were before |
| `AccountLists.DecodeItemsStopsAtFirstError` | src/slic3r/GUI/AccountManager.cpp:156-164 | the loaded records are `from_json` of the leading items in order; if items are left over, the first of them is the one whose decoding threw |
| `AccountLists.DecodeItemsAllSucceed` | src/slic3r/GUI/AccountManager.cpp:157-160 | when every item decodes, the list becomes item-wise `from_json`, same length and order |
| `AccountLists.LoadAfterSave` | src/slic3r/GUI/AccountManager.cpp:117-162 | loading the document saving writes gives back exactly the saved list, whatever the list held before |
| `Accounts.JoinPath` | src/slic3r/GUI/AccountManager.cpp:14-15 | the path starts with the directory and ends with the file name; when the directory is not empty exactly one `/` stands between them (none added after a trailing `/`); an empty directory gives the bare file name |
| `Accounts.AccountManager.constructor` | src/slic3r/GUI/AccountManager.cpp:11-16 | the list starts empty, nothing has been saved, and the file is `bambu_accounts.json` in the data directory |
| `Accounts.AccountManager.AddAccount` | src/slic3r/GUI/AccountManager.cpp:22-46 | the new list is the add-or-replace of the old one, and exactly one save of the new list follows |
| `Accounts.AccountManager.RemoveAccount` | src/slic3r/GUI/AccountManager.cpp:48-67 | answers true iff some record had the id; the new list is the removal; it saves only when it answered true |
| `Accounts.AccountManager.SwitchAccount` | src/slic3r/GUI/AccountManager.cpp:69-88 | answers true iff some record had the id; every flag becomes "id matches" even when it answers false; it saves only when it answered true |
| `Accounts.AccountManager.GetActiveAccount` | src/slic3r/GUI/AccountManager.cpp:90-98 | gives the first active record, or none when no flag is set; the list is not changed |
| `Accounts.AccountManager.HasAccount` | src/slic3r/GUI/AccountManager.cpp:100-104 | true iff some record has the id, which is exactly when `GetAccount` gives a record |
| `Accounts.AccountManager.GetAccount` | src/slic3r/GUI/AccountManager.cpp:106-115 | gives the first record with the id, or none; the list is not changed |
| `Accounts.AccountManager.GetAllAccounts` | src/slic3r/GUI/AccountManager.hpp:68 | gives the stored list itself, in order, without changing it |
| `Accounts.AccountManager.SaveAccounts` | src/slic3r/GUI/AccountManager.cpp:117-136 | records one written document, the array of `to_json` of each record in list order; the list is unchanged |
| `Accounts.AccountManager.LoadAccounts` | src/slic3r/GUI/AccountManager.cpp:138-166 | absent, unopenable or unparsable file: the list is unchanged; a parsed non-array: the list becomes empty; a parsed array: the list becomes its decoded leading items |
| `Accounts.AccountManager.UpdateActiveAccount` | src/slic3r/GUI/AccountManager.cpp:168-173 | each record's flag becomes "its id equals the argument"; nothing else changes and nothing is saved |

## Left out

- File input and output: opening, writing and reading `bambu_accounts.json`, and the
  `exists` check. `LoadAccounts` receives what reading the file produced (`ConfigFile`), and
  `SaveAccounts` records the document it hands to the writer in the ghost field `saves`.
- Accounts.AccountManager.SaveAccounts: a failed write (the file cannot be opened, or an
  exception) is not distinguished from a successful one; the store never observes it either.
- JSON text: pretty-printing with four-space indentation and parsing. A parse error is the
  `ParseFailed` case. JSON numbers are modelled as integers; floating point is not modelled.
- Byte strings: C++ `std::string` holds bytes, while a Dafny `string` holds characters, so a
  field that is not valid UTF-8 cannot be represented. For such a field `dump(4)` in
  `save_accounts` (src/slic3r/GUI/AccountManager.cpp:127) throws after the output stream at
  line 125 has already truncated the file; the model has no such case. Id comparison does not
  depend on this.
- Logging through `BOOST_LOG_TRIVIAL`: it has no effect on the store.
- Accounts.JoinPath: models the POSIX separator `/` only, not the Windows `\` or drive letters.
- Accounts.AccountManager.GetActiveAccount and Accounts.AccountManager.GetAccount: the C++
  returns a pointer into the vector through which a caller may change the record; the model
  returns a copy of the record, so writes through that pointer are not modelled.
- The browser-side account switcher (resources/web/account_switcher.js): DOM construction and
  messaging, with no list logic of its own.
- The unit test's temporary-directory setup; its assertions are covered by `ToJsonShape` and
  `RoundTrip`.
- Concurrency: the store is used from one thread and the model is sequential.
