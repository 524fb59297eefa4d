/** Client sessions checked against the manager's contracts alone. */
module ExampleSession {
  import opened Results
  import Json
  import opened BambuAccounts
  import opened AccountLists
  import opened Accounts

  /** Two adds, a switch, a remove, and a switch to an unknown id. */
  method Session() {
    var m := new AccountManager("/home/user/.config/BambuStudio");
    var u1 := Default().(userId := "u1");
    var u2 := Default().(userId := "u2", isActive := true);

    m.AddAccount(u1);
    assert m.accounts == [u1.(isActive := true)];

    // The second account is appended inactive; the first one stays active.
    m.AddAccount(u2);
    assert m.accounts == [u1.(isActive := true), u2.(isActive := false)];

    var found := m.SwitchAccount("u2");
    assert found;
    assert m.accounts == [u1, u2];

    var active := m.GetActiveAccount();
    assert active == Some(u2);

    var removed := m.RemoveAccount("u2");
    assert removed;
    assert m.accounts == [u1.(isActive := true)];

    // An unknown id is reported as missing, yet the pass clears the remaining flag.
    found := m.SwitchAccount("nobody");
    assert !found;
    assert m.accounts == [u1];
    active := m.GetActiveAccount();
    assert active == None;

  }

  /** What one manager writes, read back by a second manager, gives the same list. */
  method SaveThenLoad() {
    var m := new AccountManager("/home/user/.config/BambuStudio");
    m.AddAccount(Default().(userId := "u1", nickname := "First"));
    m.AddAccount(Default().(userId := "u2", authToken := "token"));
    m.SaveAccounts();
    var written := Document(m.accounts);
    assert written == m.saves[|m.saves| - 1];
    var reloaded := new AccountManager("/home/user/.config/BambuStudio");
    LoadAfterSave(m.accounts, reloaded.accounts);
    reloaded.LoadAccounts(Parsed(written));
    assert reloaded.accounts == m.accounts;

    // A document that is not an array empties the list.
    reloaded.LoadAccounts(Parsed(Json.JObject(map[])));
    assert reloaded.accounts == [];
  }
}
