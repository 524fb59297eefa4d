/** The account manager: the in-memory list of accounts, changed in place, and its file. */
module Accounts {
  import opened Results
  import opened Json
  import opened BambuAccounts
  import opened AccountLists

  const AccountsFileName: string := "bambu_accounts.json"

  /**
   * Appends a file name to a directory path, adding a `/` only when the directory is not empty
   * and does not already end in one, so exactly one separator stands between them.
   */
  function JoinPath(dir: string, name: string): (path: string)
    ensures |dir| + |name| <= |path| <= |dir| + 1 + |name|
    ensures path[..|dir|] == dir && path[|path| - |name|..] == name
    ensures dir != [] ==> path[|path| - |name| - 1] == '/'
    ensures dir == [] || dir[|dir| - 1] == '/' ==> |path| == |dir| + |name|
    ensures dir != [] && dir[|dir| - 1] != '/' ==> |path| == |dir| + 1 + |name|
  {
    if dir == [] || dir[|dir| - 1] == '/' then dir + name else dir + "/" + name
  }

  class AccountManager {
    /** The stored accounts, in order. */
    var accounts: seq<BambuAccount>
    /** Where the accounts file lives; fixed at construction. */
    const configFilePath: string
    /** Every document handed to the file writer so far, oldest first. */
    ghost var saves: seq<JVal>

    /** An empty manager whose file is `bambu_accounts.json` in the host's data directory. */
    constructor(dataDir: string)
      ensures accounts == [] && saves == []
      ensures configFilePath == JoinPath(dataDir, AccountsFileName)
    {
      configFilePath := JoinPath(dataDir, AccountsFileName);
      accounts := [];
      saves := [];
    }

    /**
     * Overwrites the first record with the same id, or appends the account with its flag forced
     * to "the list was empty"; saves in both cases.
     */
    method AddAccount(account: BambuAccount)
      modifies this
      ensures accounts == Added(old(accounts), account)
      ensures saves == old(saves) + [Document(accounts)]
    {
      var i := 0;
      while i < |accounts|
        invariant 0 <= i <= |accounts|
        invariant accounts == old(accounts) && saves == old(saves)
        invariant forall k :: 0 <= k < i ==> accounts[k].userId != account.userId
      {
        if accounts[i].userId == account.userId {
          accounts := accounts[i := account];
          SaveAccounts();
          return;
        }
        i := i + 1;
      }
      var newAccount := account;
      if accounts == [] {
        newAccount := newAccount.(isActive := true);
      } else {
        newAccount := newAccount.(isActive := false);
      }
      accounts := accounts + [newAccount];
      SaveAccounts();
    }

    /**
     * Erases the first record with the id; if it was active, the new first record becomes
     * active. Saves and answers true when a record was found; otherwise changes nothing.
     */
    method RemoveAccount(userId: string) returns (removed: bool)
      modifies this
      ensures removed <==> IndexOf(old(accounts), userId).Some?
      ensures accounts == Removed(old(accounts), userId)
      ensures saves == if removed then old(saves) + [Document(accounts)] else old(saves)
    {
      var i := 0;
      while i < |accounts| && accounts[i].userId != userId
        invariant 0 <= i <= |accounts|
        invariant forall k :: 0 <= k < i ==> accounts[k].userId != userId
      {
        i := i + 1;
      }
      if i < |accounts| {
        var wasActive := accounts[i].isActive;
        accounts := accounts[..i] + accounts[i + 1..];
        if wasActive && accounts != [] {
          accounts := accounts[0 := accounts[0].(isActive := true)];
        }
        SaveAccounts();
        return true;
      }
      return false;
    }

    /**
     * Flags exactly the records with the id as active, in one pass over all records, and
     * answers whether there was one; saves only then. An unknown id still clears every flag.
     */
    method SwitchAccount(userId: string) returns (found: bool)
      modifies this
      ensures found <==> IndexOf(old(accounts), userId).Some?
      ensures accounts == WithActive(old(accounts), userId)
      ensures saves == if found then old(saves) + [Document(accounts)] else old(saves)
    {
      found := false;
      var i := 0;
      while i < |accounts|
        invariant 0 <= i <= |accounts| == |old(accounts)|
        invariant forall k :: 0 <= k < i ==> accounts[k] == WithActive(old(accounts), userId)[k]
        invariant forall k :: i <= k < |accounts| ==> accounts[k] == old(accounts)[k]
        invariant found <==> exists k :: 0 <= k < i && old(accounts)[k].userId == userId
        invariant saves == old(saves)
      {
        if accounts[i].userId == userId {
          accounts := accounts[i := accounts[i].(isActive := true)];
          found := true;
        } else {
          accounts := accounts[i := accounts[i].(isActive := false)];
        }
        i := i + 1;
      }
      if found {
        SaveAccounts();
      }
    }

    /** The first active record, or none when no record is flagged. */
    method GetActiveAccount() returns (active: Option<BambuAccount>)
      ensures active == At(accounts, IndexOfActive(accounts))
    {
      var i := 0;
      while i < |accounts|
        invariant 0 <= i <= |accounts|
        invariant forall k :: 0 <= k < i ==> !accounts[k].isActive
      {
        if accounts[i].isActive {
          return Some(accounts[i]);
        }
        i := i + 1;
      }
      return None;
    }

    /** Whether some record has the id. */
    method HasAccount(userId: string) returns (present: bool)
      ensures present <==> exists k :: 0 <= k < |accounts| && accounts[k].userId == userId
      ensures present <==> IndexOf(accounts, userId).Some?
    {
      var i := 0;
      while i < |accounts| && accounts[i].userId != userId
        invariant 0 <= i <= |accounts|
        invariant forall k :: 0 <= k < i ==> accounts[k].userId != userId
      {
        i := i + 1;
      }
      present := i < |accounts|;
    }

    /** The first record with the id, or none. */
    method GetAccount(userId: string) returns (account: Option<BambuAccount>)
      ensures account == At(accounts, IndexOf(accounts, userId))
    {
      var i := 0;
      while i < |accounts| && accounts[i].userId != userId
        invariant 0 <= i <= |accounts|
        invariant forall k :: 0 <= k < i ==> accounts[k].userId != userId
      {
        i := i + 1;
      }
      if i < |accounts| {
        return Some(accounts[i]);
      }
      return None;
    }

    /** The stored list itself, in order. */
    method GetAllAccounts() returns (all: seq<BambuAccount>)
      ensures all == accounts
    {
      all := accounts;
    }

    /**
     * Builds the array of `to_json` of each record, in list order, and hands it to the file
     * writer; the list is not changed. Whether the write succeeds is not visible to the caller.
     */
    method SaveAccounts()
      modifies this`saves
      ensures saves == old(saves) + [Document(accounts)]
    {
      var items: seq<JVal> := [];
      var i := 0;
      while i < |accounts|
        invariant 0 <= i <= |accounts|
        invariant items == Document(accounts).items[..i]
      {
        items := items + [ToJson(accounts[i])];
        i := i + 1;
      }
      assert items == Document(accounts).items;
      saves := saves + [JArray(items)];
    }

    /**
     * Replaces the list with the file's contents. Nothing changes when the file is absent, cannot
     * be opened or does not parse. A parsed document clears the list; an array's items are then
     * appended one by one, until an item's decoding throws.
     */
    method LoadAccounts(file: ConfigFile)
      modifies this`accounts
      ensures accounts == Loaded(old(accounts), file)
    {
      if !file.Parsed? {
        return;
      }
      var doc := file.doc;
      accounts := [];
      if doc.JArray? {
        var items := doc.items;
        var i := 0;
        while i < |items|
          invariant 0 <= i <= |items|
          invariant DecodeItems(items) == accounts + DecodeItems(items[i..])
        {
          var decoded := FromJson(items[i]);
          DecodeItemsAt(items, i);
          if decoded.Failure? {
            assert accounts + DecodeItems(items[i..]) == accounts;
            return;
          }
          accounts := accounts + [decoded.value];
          i := i + 1;
        }
        assert items[i..] == [];
      }
    }

    /** Sets each record's flag to "its id is the argument"; nothing else changes and nothing is saved. */
    method UpdateActiveAccount(userId: string)
      modifies this`accounts
      ensures accounts == WithActive(old(accounts), userId)
    {
      var i := 0;
      while i < |accounts|
        invariant 0 <= i <= |accounts| == |old(accounts)|
        invariant forall k :: 0 <= k < i ==> accounts[k] == WithActive(old(accounts), userId)[k]
        invariant forall k :: i <= k < |accounts| ==> accounts[k] == old(accounts)[k]
      {
        accounts := accounts[i := accounts[i].(isActive := accounts[i].userId == userId)];
        i := i + 1;
      }
    }
  }
}
