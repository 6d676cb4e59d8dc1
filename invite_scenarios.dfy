/**
 * The model's counterpart of the plugin's redemption examples: a client
 * that drives an `InviteStore` and states, from the contracts alone, what
 * each call returns and leaves behind.
 */
module InviteScenarios {
  import opened Wrappers
  import opened InviteTokens
  import Email

  /** A stand-in key generator: key number `k` is `k + 1` letters `k`. */
  function Key(k: nat): Token {
    seq(k + 1, _ => 'k')
  }

  /** The invites of the redemption examples, under keys the stand-in generator never issues. */
  function ExampleTable(): map<Token, Invite> {
    map["abc" := Invite(1, Some("test@example.com"), NotRequired, [], [], false),
        "def" := Invite(1, Some("existing_user@example.com"), NotRequired, [], [], false)]
  }

  lemma KeyIsInjective()
    ensures Injective(Key)
  {
    forall a: nat, b: nat | a != b ensures Key(a) != Key(b) {
      assert |Key(a)| != |Key(b)|;
    }
  }

  lemma ExampleTableFresh()
    ensures FreshFrom(ExampleTable(), Key, 0)
  {
    forall k: nat ensures Key(k) != "abc" && Key(k) != "def" {
      assert Key(k)[0] == 'k';
    }
  }

  /**
   * With an account registered under the first invite's e-mail, redeeming
   * the other invite with that e-mail is refused, and nothing is written.
   */
  method UserExistsScenario() {
    KeyIsInjective();
    ExampleTableFresh();
    var existing := "test@example.com";
    Email.DowncaseOfLower(existing);
    var store := new InviteStore(Key, ExampleTable(), {existing}, {7});
    var r := store.RedeemFromToken("def", existing, None, None, Some(7));
    assert r == UserExists && store.invites == ExampleTable();
  }

  method RedeemScenarios() {
    KeyIsInjective();
    ExampleTableFresh();
    var store := new InviteStore(Key, ExampleTable(), {}, {7});
    var invite := ExampleTable()["abc"];

    // An unknown token gives no user and leaves the invite unredeemed.
    var r := store.RedeemFromToken("bae0071f995bb4b6f756e80b383778b5", "user@example.com", None, None, None);
    assert r == NoInvite && !store.invites["abc"].redeemed;

    // A known token with a new e-mail redeems the invite and binds the topic once.
    r := store.RedeemFromToken("abc", "test@example.com", None, None, Some(7));
    assert r == Redeemed(User("test@example.com", None, None));
    assert store.invites["abc"].redeemed && store.invites["abc"].topicIds == [7];

    // A call without quantity creates one invite with the requested groups.
    var tokens := store.GenerateInviteTokens(1, None, [3, 4]);
    assert tokens == [Key(0)];
    GeneratedSpec(ExampleTable()["abc" := invite.(topicIds := [7], redeemed := true)], Key, 0, 1, [3, 4], 1);
    assert store.invites[Key(0)] == Invite(1, None, NotRequired, [3, 4], [], false);
  }
}
