# Invite tokens: a Dafny model

This project models the invite-token lifecycle of the `discourse-invite-tokens`
plugin for Discourse. The plugin adds two class methods to the host's `Invite`
model:

- `generate_invite_tokens` creates a batch of invites for one inviter. Each
  invite is bound to the requested groups and needs no e-mail. The method
  returns the invite keys (tokens).
- `redeem_from_token` looks an invite up by its token. It refuses an e-mail
  that already belongs to an account. It binds a landing topic if one is
  given, exists and is not bound yet. Then it hands the invite to the host's
  redeemer, which marks the invite redeemed and returns the user.

The model is a class `InviteTokens.InviteStore`. Its fields are the invite
table (token to invite), the e-mails of existing accounts (stored lower-cased),
the existing topic ids, and a key supply. The host creates invite keys at
random and relies on their uniqueness. The model represents this as an
injective generator `keyGen` of which the first `issued` keys are used. The
invariant `Valid()` says that no unused key is in the table.

Each state-changing method is tied to a pure function of the old state:

- `GenerateInviteTokens` is tied to `Generated` and `IssuedKeys`.
- `RedeemFromToken` is tied to `RedeemStep`.

The lemmas about those functions state what the plugin promises. A generation
call creates exactly `max(quantity, 0)` invites. The default quantity is 1. The
new keys were unused, and they are distinct. Every new invite is bound to the
requested groups. Existing invites are untouched. An unknown token gives no
user and changes nothing. An e-mail that already has an account raises
`UserExists` before anything is written. The account lookup is
case-insensitive. Repeating a redemption never binds a topic twice.

Group ids are subtracted with Ruby's `Array#-`, which removes only ids
already bound. The code then calls `create!` once per remaining id,
duplicates included, so the model binds a group id requested twice twice.
Whether the host's invited-groups table keeps a second row for the same
invite and group is not part of this model.

The module `EmailRepair` models the controller's repair of the `email`
parameter (`split(" ").join("+")`). The repair cuts at every whitespace
character and puts one `+` between the repaired parts on either side, none
where a side is empty. So it removes all whitespace and keeps every other
character, in order. It undoes the query-string
decoding of `+` into a space when each `+` stands between two non-empty parts.
It does not restore other addresses. A doubled `+` comes back single (`a++b`
becomes `a+b`). A leading or trailing `+` is dropped.

`InviteScenarios.UserExistsScenario` and `InviteScenarios.RedeemScenarios`
replay the plugin's redemption examples against the contracts.

Files:

- `wrappers.dfy`: the `Option` datatype.
- `email.dfy`: e-mail case folding.
- `bindings.dfy`: Ruby's `Array#-` and insert-if-absent bindings.
- `invite_extension.dfy`: the invite store and the two operations.
- `email_repair.dfy`: the controller's e-mail repair.
- `invite_scenarios.dfy`: a client of the store.

Facts about the code that the model keeps:

- `redeem_from_token` does no "already redeemed" check of its own. The
  controller's `show` action checks `redeemed?`, but redemption does not.
- Invites have no expiry in this code.
- The e-mail check comes before the topic binding.

## Model

| member | source | states |
|---|---|---|
| `Email.Downcase` | lib/discourse_invite_tokens/invite_extension.rb:30 | the canonical form has the same length and has no upper-case letter; each upper-case letter becomes its lower-case letter (code point plus 32); every other character is kept |
| `Email.DowncaseIdempotent` | lib/discourse_invite_tokens/invite_extension.rb:30 | folding an address twice gives the same result as folding it once |
| `Email.LookupIsCaseInsensitive` | lib/discourse_invite_tokens/invite_extension.rb:30-31 | with stored addresses in canonical form, the lookup of the canonical form of `email` succeeds exactly when a stored address names the same mailbox in any letter case |
| `Bindings.Difference` | lib/discourse_invite_tokens/invite_extension.rb:19 | `a - b` holds exactly the elements of `a` that are not in `b`, each as often as in `a`; it is never longer than `a`; subtracting nothing leaves `a` as it is; it keeps `a` free of duplicates |
| `Bindings.DifferenceAppend` | lib/discourse_invite_tokens/invite_extension.rb:19 | `(a + c) - b` is `(a - b) + (c - b)`: the elements that are kept stay in their order in `a` |
| `Bindings.DuplicateRequestBoundTwice` | lib/discourse_invite_tokens/invite_extension.rb:19-20 | an id requested twice for an owner with nothing bound gets two bindings, one `create!` each |
| `Bindings.InsertAbsent` | lib/discourse_invite_tokens/invite_extension.rb:19-20 | binding `requested` keeps the existing bindings as a prefix; afterwards every requested id is bound; no id that was already bound is added again; when neither list has duplicates, the result has none; binding to an owner with nothing bound gives exactly the requested ids |
| `Bindings.DifferenceOfCovered` | lib/discourse_invite_tokens/invite_extension.rb:19 | subtracting a list that contains every element gives the empty list |
| `Bindings.InsertAbsentIdempotent` | lib/discourse_invite_tokens/invite_extension.rb:19-20 | binding the same ids a second time adds no binding |
| `InviteTokens.PassCount` | lib/discourse_invite_tokens/invite_extension.rb:10-13 | a missing quantity makes one pass; a positive quantity makes that many passes; zero or a negative quantity makes none |
| `InviteTokens.IssuedKeys` | lib/discourse_invite_tokens/invite_extension.rb:13-21 | n passes return n keys |
| `InviteTokens.GeneratedInvite` | lib/discourse_invite_tokens/invite_extension.rb:14-20 | a generated invite is owned by the inviter, has no e-mail, has emailed status `not_required`, is bound to the requested groups and to no topic, and is unredeemed |
| `InviteTokens.Generated` | lib/discourse_invite_tokens/invite_extension.rb:13-21 | the table after n passes still holds every key it held before |
| `InviteTokens.IssuedKeyAt` | lib/discourse_invite_tokens/invite_extension.rb:21 | the j-th key returned is the generator's key number `issued + j`, so keys come back in creation order |
| `InviteTokens.IssuedKeysFresh` | lib/discourse_invite_tokens/invite_extension.rb:14-21 | with a non-repeating key supply, the returned keys are pairwise distinct and none was in use before |
| `InviteTokens.GeneratedKeys` | lib/discourse_invite_tokens/invite_extension.rb:13-21 | after n passes the table holds exactly the old keys and the n issued keys |
| `InviteTokens.GeneratedNew` | lib/discourse_invite_tokens/invite_extension.rb:14-20 | every issued key maps to an invite owned by the inviter, with no e-mail, emailed status `not_required`, unredeemed, bound to exactly the requested groups and to no topic |
| `InviteTokens.GeneratedKeepsOld` | lib/discourse_invite_tokens/invite_extension.rb:13-24 | invites that existed are untouched; the table grows by exactly n; the keys not yet issued are still unused |
| `InviteTokens.GeneratedSpec` | lib/discourse_invite_tokens/invite_extension.rb:13-24 | n passes create exactly n new invites under n distinct unused keys; each has the generated shape with all requested groups; old invites are untouched; unissued keys stay unused |
| `InviteTokens.BindTopic` | lib/discourse_invite_tokens/invite_extension.rb:34-37 | when the topic is given, exists and is not bound yet, it is appended after the existing bindings; otherwise the invite is unchanged; a topic is bound afterwards exactly when it was bound before or was given and exists; nothing else in the invite changes; the list stays free of duplicates |
| `InviteTokens.RedeemStep` | lib/discourse_invite_tokens/invite_extension.rb:27-42 | an unknown token gives nil and leaves the state as it was; a known token whose lower-cased e-mail has an account gives `UserExists` and leaves the state as it was; otherwise the result is a user carrying the caller's original e-mail, username and name, and only that invite changes: it gets the topic step and is marked redeemed |
| `InviteTokens.UserExistsIffSameAddress` | lib/discourse_invite_tokens/invite_extension.rb:30-32 | for a known token, redemption raises `UserExists` exactly when an existing account's e-mail equals the given one ignoring letter case |
| `InviteTokens.RedeemTwiceBindsTopicOnce` | lib/discourse_invite_tokens/invite_extension.rb:34-37 | repeating a redemption call leaves the invite's topic list as the first call left it, with no duplicate |
| `InviteTokens.GeneratedInviteRedeems` | lib/discourse_invite_tokens/invite_extension.rb:13-39 | a key returned by generation, redeemed with an e-mail that has no account, yields a user; the invite ends up redeemed, still owned by the inviter and bound to the requested groups |
| `InviteTokens.InviteStore.CreateInvite` | lib/discourse_invite_tokens/invite_extension.rb:14-18 | `Invite.create!` under the next unused key, with owner `invited_by`, no e-mail and status `not_required`; nothing else changes |
| `InviteTokens.InviteStore.BindGroups` | lib/discourse_invite_tokens/invite_extension.rb:20 | one group row is appended per id, in order, to that invite only |
| `InviteTokens.InviteStore.GeneratePass` | lib/discourse_invite_tokens/invite_extension.rb:14-21 | one pass creates a fresh invite; the subtraction leaves the requested group ids intact; the invite gets exactly those groups by insert-if-absent; its key is returned |
| `InviteTokens.InviteStore.GenerateInviteTokens` | lib/discourse_invite_tokens/invite_extension.rb:8-25 | a missing quantity means 1; the result is the `max(quantity, 0)` next keys in creation order; the table becomes `Generated` of the old table; accounts and topics are unchanged |
| `InviteTokens.InviteStore.RedeemInvite` | lib/discourse_invite_tokens/invite_extension.rb:38-39 | the redeemer marks the invite redeemed and returns a user built from the original e-mail, username and name |
| `InviteTokens.InviteStore.RedeemFromToken` | lib/discourse_invite_tokens/invite_extension.rb:27-42 | the result and the new state are exactly those of `RedeemStep` on the old state; the key supply is not touched |
| `EmailRepair.Fields` | plugin.rb:72 | `split(" ")` yields only non-empty fields without whitespace |
| `EmailRepair.FieldsCoverText` | plugin.rb:72 | the fields laid end to end are the input with its whitespace removed |
| `EmailRepair.FieldsOfWord` | plugin.rb:72 | a non-empty run without whitespace, followed by whitespace or by nothing, splits off as one field |
| `EmailRepair.FieldsAtSpace` | plugin.rb:72 | `split(" ")` cuts at every whitespace character: the fields of `a`, a whitespace character and `b` are the fields of `a` followed by those of `b` |
| `EmailRepair.Join` | plugin.rb:72 | the length of `join` of a non-empty list is the total length of the parts plus one less than their number; it starts with the first part; joining nothing gives the empty string |
| `EmailRepair.JoinAppend` | plugin.rb:72 | joining two non-empty lists laid end to end is joining each and putting one separator between: the separators go between neighbours and none at the ends |
| `EmailRepair.RepairEmail` | plugin.rb:72 | the repaired e-mail contains no whitespace; apart from whitespace and `+` it has exactly the characters of the input, in order |
| `EmailRepair.RepairLosesDoubledPlus` | plugin.rb:72 | after query decoding, an address with a doubled `+` between two parts comes back with a single `+` |
| `EmailRepair.RepairLosesEdgePlus` | plugin.rb:72 | after query decoding, a leading or a trailing `+` is dropped |
| `EmailRepair.RepairAtSpace` | plugin.rb:72 | the repair of `a`, a whitespace character and `b` is the repair of `a`, one `+` and the repair of `b`; when either repair is empty, it is the other one alone |
| `EmailRepair.RepairKeepsCleanAddress` | plugin.rb:46 | a non-empty address without whitespace is left unchanged |
| `EmailRepair.RepairUndoesPlusDecoding` | plugin.rb:46 | an address made of non-empty, space-free parts joined by `+`, whose `+` signs were decoded to spaces, is restored exactly |

## Left out

- The controller actions (`show`, `redeem_invite_token`, `create_invite_token`), the routes and the views are HTTP glue and are not modelled. Only the e-mail repair from the controller is modelled. The same goes for redirects, flash messages, JSON and 422 rendering, `log_on_user`, the before-action guards, the admin check and the site settings.
- `post_process_invite` is not modelled. It only enqueues e-mail jobs.
- The problem check `app/services/problem_check/deprecated_invite_tokens.rb` is not modelled. It is a site-setting check with no logic.
- InviteTokens.InviteStore.RedeemInvite: stands in for the host's `InviteRedeemer`, whose source is not part of this model. It only marks the invite redeemed and returns a user. Account creation, activation, group membership and binding the e-mail to the invite are not modelled. So redemption does not add the new account to `userEmails`.
- InviteTokens.InviteStore.GenerateInviteTokens: `quantity` is an optional integer. The `String#to_i` coercion of a quantity that arrives as a string is not modelled; under it a non-numeric quantity raises no error and makes no pass.
- InviteTokens.InviteStore.GenerateInviteTokens: the requested groups arrive as ids. The host's `get_group_ids` lookup by group name is not modelled.
- The random `invite_key` is an injective key supply. The model does not capture randomness or a key collision.
- `Email.downcase` is modelled as ASCII lower-casing. Unicode case folding is not modelled.
- `User.find_by_email` is a set of lower-cased e-mails. `Topic.find_by_id` is a set of topic ids.
- Persistence failures (`create!` raising, `ActiveRecord::RecordInvalid`), transactions and concurrent redemptions are not modelled. Each call is atomic in the model.
- Invite expiry and an "already redeemed" rejection are not modelled. `redeem_from_token` has neither. A redemption of a redeemed invite goes through as far as the plugin's model extension is concerned.
