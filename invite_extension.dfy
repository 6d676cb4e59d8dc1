/**
 * The invite-token lifecycle that the plugin adds to the host's `Invite`
 * model: generating a batch of invites for one inviter, and redeeming an
 * invite by its token.
 *
 * The invite table, the existing accounts (by canonical e-mail) and the
 * existing topics are the fields of `InviteStore`; the host's random key
 * generator is an injective supply `keyGen` of which the first `issued`
 * keys have been handed out.
 */
module InviteTokens {
  import opened Wrappers
  import Email
  import opened Bindings

  type Token = string
  type UserId = nat
  type GroupId = int
  type TopicId = int

  /** The host's `Invite.emailed_status_types`; generated invites are `NotRequired`. */
  datatype EmailedStatus = Unknown | Pending | Sending | Sent | NotRequired

  /**
   * One row of the invite table with its join rows: the invited groups and
   * the topic invites, each as a list of ids in creation order.
   */
  datatype Invite = Invite(
    invitedBy: UserId,
    email: Option<string>,
    emailedStatus: EmailedStatus,
    groupIds: seq<GroupId>,
    topicIds: seq<TopicId>,
    redeemed: bool)

  /** The account the redeemer hands back, with what it was given. */
  datatype User = User(email: string, username: Option<string>, name: Option<string>)

  /** How `redeem_from_token` ends: `nil`, the `UserExists` exception, or a user. */
  datatype Redemption = NoInvite | UserExists | Redeemed(user: User)

  /** The persistent state the two operations read and write. */
  datatype Store = Store(invites: map<Token, Invite>, userEmails: set<string>, topics: set<TopicId>)

  /** The key generator never repeats a key. */
  ghost predicate Injective(keyGen: nat -> Token) {
    forall a: nat, b: nat :: a != b ==> keyGen(a) != keyGen(b)
  }

  /** No key from the `issued`-th on is in use yet. */
  ghost predicate FreshFrom(invites: map<Token, Invite>, keyGen: nat -> Token, issued: nat) {
    forall k: nat :: issued <= k ==> keyGen(k) !in invites
  }

  /** The number of passes of `quantity.to_i.times` after `quantity ||= 1`. */
  function PassCount(quantity: Option<int>): (n: nat)
    ensures quantity.None? ==> n == 1
    ensures quantity.Some? && quantity.value > 0 ==> n == quantity.value
    ensures quantity.Some? && quantity.value <= 0 ==> n == 0
  {
    var q := if quantity.None? then 1 else quantity.value;
    if q < 0 then 0 else q
  }

  /** The `n` keys the generator hands out after the first `from`, in order. */
  function IssuedKeys(keyGen: nat -> Token, from: nat, n: nat): (ks: seq<Token>)
    ensures |ks| == n
    decreases n
  {
    if n == 0 then [] else IssuedKeys(keyGen, from, n - 1) + [keyGen(from + n - 1)]
  }

  /** The `j`-th issued key is the generator's key number `from + j`. */
  lemma {:induction false} IssuedKeyAt(keyGen: nat -> Token, from: nat, n: nat, j: nat)
    requires j < n
    ensures IssuedKeys(keyGen, from, n)[j] == keyGen(from + j)
    decreases n
  {
    if j < n - 1 {
      IssuedKeyAt(keyGen, from, n - 1, j);
    }
  }

  /** One more pass issues one more key, at the end; the loop's step for its key list. */
  lemma IssuedKeysSnoc(keyGen: nat -> Token, from: nat, n: nat)
    ensures IssuedKeys(keyGen, from, n + 1) == IssuedKeys(keyGen, from, n) + [keyGen(from + n)]
  {
  }

  /** Writing the same key twice keeps the second value: creating a row, then binding its groups. */
  lemma UpdateTwice<K, V>(m: map<K, V>, k: K, a: V, b: V)
    ensures m[k := a][k := b] == m[k := b]
  {
  }

  /** A freshly created invite of `invitedBy`: no e-mail, no e-mail needed, nothing bound. */
  function NewInvite(invitedBy: UserId): Invite {
    Invite(invitedBy, None, NotRequired, [], [], false)
  }

  /** A generated invite once its groups are bound: the new invite with exactly the requested groups. */
  function GeneratedInvite(invitedBy: UserId, groupIds: seq<GroupId>): (r: Invite)
    ensures r.invitedBy == invitedBy && r.email.None? && r.emailedStatus == NotRequired
    ensures r.groupIds == groupIds
    ensures r.topicIds == [] && !r.redeemed
  {
    NewInvite(invitedBy).(groupIds := groupIds)
  }

  /**
   * The invite table after `n` passes of the generation loop: each pass adds
   * a new invite of `invitedBy`, bound to the requested groups, under the
   * next key.
   */
  function Generated(invites: map<Token, Invite>, keyGen: nat -> Token, issued: nat,
                     invitedBy: UserId, groupIds: seq<GroupId>, n: nat): (r: map<Token, Invite>)
    ensures invites.Keys <= r.Keys
    decreases n
  {
    if n == 0 then invites
    else Generated(invites, keyGen, issued, invitedBy, groupIds, n - 1)[keyGen(issued + n - 1) := GeneratedInvite(invitedBy, groupIds)]
  }

  /** One more pass adds one more invite under the next key; the loop's step for the table. */
  lemma GeneratedStep(invites: map<Token, Invite>, keyGen: nat -> Token, issued: nat,
                      invitedBy: UserId, groupIds: seq<GroupId>, n: nat)
    ensures Generated(invites, keyGen, issued, invitedBy, groupIds, n + 1)
         == Generated(invites, keyGen, issued, invitedBy, groupIds, n)[keyGen(issued + n) := GeneratedInvite(invitedBy, groupIds)]
  {
  }

  /** The keys of the generated table are the old ones and the issued ones. */
  lemma {:induction false} GeneratedKeys(invites: map<Token, Invite>, keyGen: nat -> Token, issued: nat,
                                         invitedBy: UserId, groupIds: seq<GroupId>, n: nat)
    ensures forall t :: t in Generated(invites, keyGen, issued, invitedBy, groupIds, n)
                        <==> t in invites || t in IssuedKeys(keyGen, issued, n)
    decreases n
  {
    if n > 0 {
      GeneratedKeys(invites, keyGen, issued, invitedBy, groupIds, n - 1);
    }
  }

  /** Every issued key maps to a new invite of `invitedBy` bound to the requested groups. */
  lemma {:induction false} GeneratedNew(invites: map<Token, Invite>, keyGen: nat -> Token, issued: nat,
                                        invitedBy: UserId, groupIds: seq<GroupId>, n: nat, t: Token)
    requires t in IssuedKeys(keyGen, issued, n)
    ensures t in Generated(invites, keyGen, issued, invitedBy, groupIds, n)
    ensures Generated(invites, keyGen, issued, invitedBy, groupIds, n)[t] == GeneratedInvite(invitedBy, groupIds)
    decreases n
  {
    GeneratedKeys(invites, keyGen, issued, invitedBy, groupIds, n);
    if t != keyGen(issued + n - 1) {
      GeneratedNew(invites, keyGen, issued, invitedBy, groupIds, n - 1, t);
    }
  }

  /** The issued keys are pairwise distinct and none of them was in use. */
  lemma {:induction false} IssuedKeysFresh(invites: map<Token, Invite>, keyGen: nat -> Token, issued: nat, n: nat)
    requires Injective(keyGen) && FreshFrom(invites, keyGen, issued)
    ensures NoDup(IssuedKeys(keyGen, issued, n))
    ensures forall t :: t in IssuedKeys(keyGen, issued, n) ==> t !in invites
  {
    var keys := IssuedKeys(keyGen, issued, n);
    forall i, j | 0 <= i < j < n ensures keys[i] != keys[j] {
      IssuedKeyAt(keyGen, issued, n, i);
      IssuedKeyAt(keyGen, issued, n, j);
    }
    forall t | t in keys ensures t !in invites {
      var j :| 0 <= j < n && keys[j] == t;
      IssuedKeyAt(keyGen, issued, n, j);
    }
  }

  /**
   * Generation with a non-repeating key supply leaves the existing invites
   * untouched, adds exactly `n` invites, and keeps the keys not yet issued
   * unused.
   */
  lemma {:induction false} GeneratedKeepsOld(invites: map<Token, Invite>, keyGen: nat -> Token, issued: nat,
                                             invitedBy: UserId, groupIds: seq<GroupId>, n: nat)
    requires Injective(keyGen) && FreshFrom(invites, keyGen, issued)
    ensures var r := Generated(invites, keyGen, issued, invitedBy, groupIds, n);
      && FreshFrom(r, keyGen, issued + n)
      && |r| == |invites| + n
      && (forall t :: t in invites ==> t in r && r[t] == invites[t])
    decreases n
  {
    if n > 0 {
      var m := n - 1;
      GeneratedKeepsOld(invites, keyGen, issued, invitedBy, groupIds, m);
      var before := Generated(invites, keyGen, issued, invitedBy, groupIds, m);
      var key := keyGen(issued + m);
      assert key !in before by {
        GeneratedKeys(invites, keyGen, issued, invitedBy, groupIds, m);
        var keys := IssuedKeys(keyGen, issued, m);
        forall j | 0 <= j < m ensures keys[j] != key {
          IssuedKeyAt(keyGen, issued, m, j);
        }
      }
      forall k: nat | issued + n <= k ensures keyGen(k) !in Generated(invites, keyGen, issued, invitedBy, groupIds, n) {
        assert keyGen(k) != key;
      }
    }
  }

  /**
   * Generation with a non-repeating key supply creates exactly `n` invites,
   * under `n` distinct keys that were unused, each owned by `invitedBy`, with
   * no e-mail, no e-mail needed, unredeemed and bound to every requested
   * group; the invites that were there are untouched, and the keys not yet
   * issued are still unused.
   */
  lemma {:induction false} GeneratedSpec(invites: map<Token, Invite>, keyGen: nat -> Token, issued: nat,
                                         invitedBy: UserId, groupIds: seq<GroupId>, n: nat)
    requires Injective(keyGen) && FreshFrom(invites, keyGen, issued)
    ensures var r := Generated(invites, keyGen, issued, invitedBy, groupIds, n);
      && FreshFrom(r, keyGen, issued + n)
      && (forall t :: t in r <==> t in invites || t in IssuedKeys(keyGen, issued, n))
      && |r| == |invites| + n
      && NoDup(IssuedKeys(keyGen, issued, n))
      && (forall t :: t in invites ==> r[t] == invites[t])
      && (forall t :: t in IssuedKeys(keyGen, issued, n) ==> t !in invites && r[t] == GeneratedInvite(invitedBy, groupIds))
  {
    GeneratedKeys(invites, keyGen, issued, invitedBy, groupIds, n);
    GeneratedKeepsOld(invites, keyGen, issued, invitedBy, groupIds, n);
    IssuedKeysFresh(invites, keyGen, issued, n);
    forall t | t in IssuedKeys(keyGen, issued, n)
      ensures Generated(invites, keyGen, issued, invitedBy, groupIds, n)[t] == GeneratedInvite(invitedBy, groupIds)
    {
      GeneratedNew(invites, keyGen, issued, invitedBy, groupIds, n, t);
    }
  }

  /**
   * The invite after the topic step of redemption: `topicId` is bound when
   * it is given, the topic exists and it is not bound yet.
   */
  function BindTopic(invite: Invite, topicId: Option<TopicId>, topics: set<TopicId>): (r: Invite)
    ensures r == invite.(topicIds := r.topicIds)
    ensures |invite.topicIds| <= |r.topicIds| <= |invite.topicIds| + 1
    ensures r.topicIds[..|invite.topicIds|] == invite.topicIds
    ensures forall t :: t in r.topicIds <==> t in invite.topicIds || (topicId == Some(t) && t in topics)
    ensures NoDup(invite.topicIds) ==> NoDup(r.topicIds)
    ensures topicId.Some? && topicId.value in topics && topicId.value !in invite.topicIds
            ==> r.topicIds == invite.topicIds + [topicId.value]
    ensures !(topicId.Some? && topicId.value in topics && topicId.value !in invite.topicIds) ==> r == invite
  {
    if topicId.Some? && topicId.value in topics && topicId.value !in invite.topicIds then
      invite.(topicIds := invite.topicIds + [topicId.value])
    else
      invite
  }

  /**
   * The outcome and the new state of `redeem_from_token`: an unknown token
   * and an e-mail that already has an account leave everything as it was;
   * otherwise the topic step runs and the invite ends up redeemed, every
   * other invite, account and topic untouched.
   */
  function RedeemStep(s: Store, token: Token, email: string, username: Option<string>,
                      name: Option<string>, topicId: Option<TopicId>): (r: (Redemption, Store))
    ensures token !in s.invites ==> r == (NoInvite, s)
    ensures token in s.invites && Email.Downcase(email) in s.userEmails ==> r == (UserExists, s)
    ensures r.0.Redeemed? <==> token in s.invites && Email.Downcase(email) !in s.userEmails
    ensures r.0.Redeemed? ==>
              r.0.user == User(email, username, name) &&
              r.1.userEmails == s.userEmails && r.1.topics == s.topics &&
              r.1.invites.Keys == s.invites.Keys &&
              (forall t :: t in s.invites && t != token ==> r.1.invites[t] == s.invites[t]) &&
              r.1.invites[token].redeemed &&
              r.1.invites[token] == BindTopic(s.invites[token], topicId, s.topics).(redeemed := true)
  {
    if token !in s.invites then (NoInvite, s)
    else if Email.Downcase(email) in s.userEmails then (UserExists, s)
    else
      var invite := BindTopic(s.invites[token], topicId, s.topics);
      (Redeemed(User(email, username, name)), s.(invites := s.invites[token := invite.(redeemed := true)]))
  }

  /**
   * With account e-mails stored in canonical form, redemption of a known
   * token is refused exactly when some account's e-mail names the same
   * mailbox as the given one, whatever the letter case.
   */
  lemma UserExistsIffSameAddress(s: Store, token: Token, email: string, username: Option<string>,
                                 name: Option<string>, topicId: Option<TopicId>)
    requires forall e :: e in s.userEmails ==> Email.IsLower(e)
    requires token in s.invites
    ensures RedeemStep(s, token, email, username, name, topicId).0 == UserExists
        <==> exists e :: e in s.userEmails && Email.SameAddress(e, email)
  {
    Email.LookupIsCaseInsensitive(s.userEmails, email);
  }

  /**
   * Repeating a redemption call binds no topic twice: the topic list of the
   * invite after the second call is the one after the first, and it stays
   * free of duplicates.
   */
  lemma RedeemTwiceBindsTopicOnce(s: Store, token: Token, email: string, username: Option<string>,
                                  name: Option<string>, topicId: Option<TopicId>)
    requires token in s.invites && NoDup(s.invites[token].topicIds)
    ensures var once := RedeemStep(s, token, email, username, name, topicId).1;
      var twice := RedeemStep(once, token, email, username, name, topicId).1;
      && token in once.invites && token in twice.invites
      && twice.invites[token].topicIds == once.invites[token].topicIds
      && NoDup(twice.invites[token].topicIds)
  {
  }

  /**
   * A key handed out by generation can be redeemed with an e-mail that has
   * no account: the invite it names is then redeemed, still owned by the
   * inviter and bound to every requested group.
   */
  lemma GeneratedInviteRedeems(s: Store, keyGen: nat -> Token, issued: nat, invitedBy: UserId,
                               groupIds: seq<GroupId>, n: nat, j: nat, email: string, topicId: Option<TopicId>)
    requires Injective(keyGen) && FreshFrom(s.invites, keyGen, issued)
    requires j < n && Email.Downcase(email) !in s.userEmails
    ensures var key := IssuedKeys(keyGen, issued, n)[j];
      var g := s.(invites := Generated(s.invites, keyGen, issued, invitedBy, groupIds, n));
      var r := RedeemStep(g, key, email, None, None, topicId);
      && key == keyGen(issued + j)
      && r.0 == Redeemed(User(email, None, None))
      && key in r.1.invites
      && r.1.invites[key].redeemed
      && r.1.invites[key].invitedBy == invitedBy
      && r.1.invites[key].groupIds == groupIds
  {
    GeneratedSpec(s.invites, keyGen, issued, invitedBy, groupIds, n);
    IssuedKeyAt(keyGen, issued, n, j);
    assert IssuedKeys(keyGen, issued, n)[j] in IssuedKeys(keyGen, issued, n);
  }

  class InviteStore {
    var invites: map<Token, Invite>
    var userEmails: set<string>
    var topics: set<TopicId>
    var issued: nat
    const keyGen: nat -> Token

    /** Keys never repeat, and the unissued ones are unused; account e-mails are stored in canonical form. */
    ghost predicate Valid()
      reads this
    {
      Injective(keyGen) && FreshFrom(invites, keyGen, issued) &&
      forall e :: e in userEmails ==> Email.IsLower(e)
    }

    function State(): Store
      reads this
    {
      Store(invites, userEmails, topics)
    }

    constructor (keyGen: nat -> Token, invites: map<Token, Invite>, userEmails: set<string>, topics: set<TopicId>)
      requires Injective(keyGen) && FreshFrom(invites, keyGen, 0)
      requires forall e :: e in userEmails ==> Email.IsLower(e)
      ensures Valid()
      ensures this.keyGen == keyGen && issued == 0
      ensures State() == Store(invites, userEmails, topics)
    {
      this.keyGen := keyGen;
      this.invites := invites;
      this.userEmails := userEmails;
      this.topics := topics;
      this.issued := 0;
    }

    /** `Invite.create!` for a generated invite: a new row of `invitedBy` under the next key. */
    method CreateInvite(invitedBy: UserId) returns (token: Token)
      requires Valid()
      modifies this
      ensures Valid()
      ensures token == keyGen(old(issued)) && token !in old(invites)
      ensures issued == old(issued) + 1
      ensures invites == old(invites)[token := NewInvite(invitedBy)]
      ensures userEmails == old(userEmails) && topics == old(topics)
    {
      token := keyGen(issued);
      issued := issued + 1;
      invites := invites[token := NewInvite(invitedBy)];
    }

    /** Creates one invited-group row per id, in order, for the invite under `token`. */
    method BindGroups(token: Token, groupIds: seq<GroupId>)
      requires Valid() && token in invites
      modifies this
      ensures Valid()
      ensures invites == old(invites)[token := old(invites[token]).(groupIds := old(invites[token].groupIds) + groupIds)]
      ensures userEmails == old(userEmails) && topics == old(topics) && issued == old(issued)
    {
      ghost var start := invites[token];
      var j := 0;
      while j < |groupIds|
        invariant 0 <= j <= |groupIds|
        invariant token in invites && invites == old(invites)[token := invites[token]]
        invariant invites[token] == start.(groupIds := start.groupIds + groupIds[..j])
        invariant userEmails == old(userEmails) && topics == old(topics) && issued == old(issued)
        invariant Valid()
      {
        var invite := invites[token];
        assert start.groupIds + groupIds[..j + 1] == (start.groupIds + groupIds[..j]) + [groupIds[j]];
        invites := invites[token := invite.(groupIds := invite.groupIds + [groupIds[j]])];
        j := j + 1;
      }
      assert groupIds[..j] == groupIds;
    }

    /**
     * One pass of the generation loop: create an invite, bind the requested
     * groups it does not have yet (all of them, as the invite is new), and
     * hand back its key and the ids left after the subtraction.
     */
    method GeneratePass(invitedBy: UserId, groupIds: seq<GroupId>) returns (token: Token, residual: seq<GroupId>)
      requires Valid()
      modifies this
      ensures Valid()
      ensures token == keyGen(old(issued)) && token !in old(invites)
      ensures issued == old(issued) + 1
      ensures residual == groupIds
      ensures invites == old(invites)[token := GeneratedInvite(invitedBy, groupIds)]
      ensures invites[token].groupIds == InsertAbsent(NewInvite(invitedBy).groupIds, groupIds)
      ensures userEmails == old(userEmails) && topics == old(topics)
    {
      ghost var before := invites;
      token := CreateInvite(invitedBy);
      residual := Difference(groupIds, invites[token].groupIds);
      BindGroups(token, residual);
      assert invites[token] == GeneratedInvite(invitedBy, groupIds) by {
        assert [] + residual == residual;
      }
      UpdateTwice(before, token, NewInvite(invitedBy), invites[token]);
    }

    /**
     * `generate_invite_tokens`: `quantity` defaults to 1; each pass creates an
     * invite of `invitedBy` under the next key, binds the requested groups it
     * does not have yet and records the key.  The keys come back in creation
     * order.
     */
    method GenerateInviteTokens(invitedBy: UserId, quantity: Option<int>, groupIds: seq<GroupId>)
      returns (tokens: seq<Token>)
      requires Valid()
      modifies this
      ensures Valid()
      ensures tokens == IssuedKeys(keyGen, old(issued), PassCount(quantity))
      ensures issued == old(issued) + PassCount(quantity)
      ensures invites == Generated(old(invites), keyGen, old(issued), invitedBy, groupIds, PassCount(quantity))
      ensures userEmails == old(userEmails) && topics == old(topics)
    {
      tokens := [];
      var q := if quantity.None? then 1 else quantity.value;
      var residual := groupIds;
      var i := 0;
      while i < q
        invariant 0 <= i <= PassCount(quantity)
        invariant issued == old(issued) + i
        invariant tokens == IssuedKeys(keyGen, old(issued), i)
        invariant invites == Generated(old(invites), keyGen, old(issued), invitedBy, groupIds, i)
        invariant residual == groupIds
        invariant userEmails == old(userEmails) && topics == old(topics)
        invariant Valid()
      {
        var token;
        token, residual := GeneratePass(invitedBy, residual);
        IssuedKeysSnoc(keyGen, old(issued), i);
        GeneratedStep(old(invites), keyGen, old(issued), invitedBy, groupIds, i);
        tokens := tokens + [token];
        i := i + 1;
      }
    }

    /**
     * The host's `InviteRedeemer#redeem`, as far as this plugin relies on it:
     * the invite ends up redeemed and a user is handed back.
     */
    method RedeemInvite(token: Token, email: string, username: Option<string>, name: Option<string>)
      returns (user: User)
      requires Valid() && token in invites
      modifies this
      ensures Valid()
      ensures invites == old(invites)[token := old(invites[token]).(redeemed := true)]
      ensures user == User(email, username, name)
      ensures userEmails == old(userEmails) && topics == old(topics) && issued == old(issued)
    {
      invites := invites[token := invites[token].(redeemed := true)];
      user := User(email, username, name);
    }

    /**
     * `redeem_from_token`: an unknown token gives no user; an e-mail whose
     * canonical form has an account raises `UserExists` before any write;
     * otherwise the topic is bound if it exists and is not bound yet, and the
     * redeemer gets the caller's e-mail as given.
     */
    method RedeemFromToken(token: Token, email: string, username: Option<string>,
                           name: Option<string>, topicId: Option<TopicId>)
      returns (result: Redemption)
      requires Valid()
      modifies this
      ensures Valid()
      ensures (result, State()) == RedeemStep(old(State()), token, email, username, name, topicId)
      ensures issued == old(issued)
    {
      if token !in invites {
        return NoInvite;
      }
      var lowerEmail := Email.Downcase(email);
      if lowerEmail in userEmails {
        return UserExists;
      }
      var invite := invites[token];
      if topicId.Some? && topicId.value in topics && topicId.value !in invite.topicIds {
        invites := invites[token := invite.(topicIds := invite.topicIds + [topicId.value])];
      }
      assert invites == old(invites)[token := BindTopic(invite, topicId, topics)];
      var user := RedeemInvite(token, email, username, name);
      assert invites == old(invites)[token := BindTopic(invite, topicId, topics).(redeemed := true)];
      result := Redeemed(user);
    }
  }
}
