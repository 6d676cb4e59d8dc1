/**
 * The repair the invite-token controller applies to the `email` parameter
 * before using it: `email.split(" ").join("+")`.  Query-string decoding
 * turns a `+` in an address (as in `jane+forum@example.com`) into a space;
 * splitting on whitespace and joining with `+` puts it back.
 */
module EmailRepair {

  /** Whitespace for Ruby's `split(" ")`: space, tab, line feed, vertical tab, form feed, carriage return. */
  predicate IsSpace(c: char) {
    c == ' ' || '\t' <= c <= '\r'
  }

  predicate NoSpace(s: string) {
    forall i :: 0 <= i < |s| ==> !IsSpace(s[i])
  }

  /** `s` with its whitespace removed. */
  function Unspaced(s: string): (r: string)
    ensures NoSpace(r) && |r| <= |s|
    decreases |s|
  {
    if s == [] then [] else (if IsSpace(s[0]) then [] else [s[0]]) + Unspaced(s[1..])
  }

  /** `s` without its whitespace and without `+`: what the repair must keep, in order. */
  function Bare(s: string): (r: string)
    ensures '+' !in r && NoSpace(r) && |r| <= |s|
    decreases |s|
  {
    if s == [] then [] else (if IsSpace(s[0]) || s[0] == '+' then [] else [s[0]]) + Bare(s[1..])
  }

  /** The fields laid end to end, with nothing between them. */
  function Concat(ws: seq<string>): string
    decreases |ws|
  {
    if ws == [] then [] else ws[0] + Concat(ws[1..])
  }

  lemma {:induction false} UnspacedAppend(a: string, b: string)
    ensures Unspaced(a + b) == Unspaced(a) + Unspaced(b)
    decreases |a|
  {
    if a == [] {
      assert a + b == b;
    } else {
      assert (a + b)[0] == a[0] && (a + b)[1..] == a[1..] + b;
      UnspacedAppend(a[1..], b);
      var head := if IsSpace(a[0]) then [] else [a[0]];
      assert Unspaced(a + b) == head + Unspaced(a[1..] + b);
      assert Unspaced(a) == head + Unspaced(a[1..]);
    }
  }

  lemma {:induction false} BareAppend(a: string, b: string)
    ensures Bare(a + b) == Bare(a) + Bare(b)
    decreases |a|
  {
    if a == [] {
      assert a + b == b;
    } else {
      assert (a + b)[0] == a[0] && (a + b)[1..] == a[1..] + b;
      BareAppend(a[1..], b);
      var head := if IsSpace(a[0]) || a[0] == '+' then [] else [a[0]];
      assert Bare(a + b) == head + Bare(a[1..] + b);
      assert Bare(a) == head + Bare(a[1..]);
    }
  }

  lemma {:induction false} UnspacedOfNoSpace(s: string)
    requires NoSpace(s)
    ensures Unspaced(s) == s
    decreases |s|
  {
    if s != [] {
      UnspacedOfNoSpace(s[1..]);
    }
  }

  /** Removing the whitespace first changes nothing of what `Bare` keeps. */
  lemma {:induction false} BareOfUnspaced(s: string)
    ensures Bare(Unspaced(s)) == Bare(s)
    decreases |s|
  {
    if s != [] {
      BareOfUnspaced(s[1..]);
      BareAppend(if IsSpace(s[0]) then [] else [s[0]], Unspaced(s[1..]));
    }
  }

  /** The length of the run of non-whitespace that starts `s`. */
  function WordLength(s: string): (n: nat)
    requires s != [] && !IsSpace(s[0])
    ensures 1 <= n <= |s|
    ensures NoSpace(s[..n])
    ensures n == |s| || IsSpace(s[n])
    decreases |s|
  {
    if |s| == 1 || IsSpace(s[1]) then 1 else 1 + WordLength(s[1..])
  }

  /**
   * `s.split(" ")`: the maximal runs of non-whitespace of `s`, in order;
   * leading, trailing and repeated whitespace yields no empty field.
   */
  function Fields(s: string): (ws: seq<string>)
    ensures forall w :: w in ws ==> w != [] && NoSpace(w)
    decreases |s|
  {
    if s == [] then []
    else if IsSpace(s[0]) then Fields(s[1..])
    else
      var n := WordLength(s);
      [s[..n]] + Fields(s[n..])
  }

  /** Laid end to end, the fields of `s` are `s` with its whitespace removed: nothing else is lost or reordered. */
  lemma {:induction false} FieldsCoverText(s: string)
    ensures Concat(Fields(s)) == Unspaced(s)
    decreases |s|
  {
    if s != [] {
      if IsSpace(s[0]) {
        FieldsCoverText(s[1..]);
      } else {
        var n := WordLength(s);
        FieldsCoverText(s[n..]);
        var ws := Fields(s);
        assert ws == [s[..n]] + Fields(s[n..]);
        assert ws[0] == s[..n] && ws[1..] == Fields(s[n..]);
        assert s == s[..n] + s[n..];
        UnspacedAppend(s[..n], s[n..]);
        UnspacedOfNoSpace(s[..n]);
      }
    }
  }

  /** `ws.join(sep)`: one separator between neighbours, none at either end. */
  function Join(ws: seq<string>, sep: char): (r: string)
    ensures ws != [] ==> |r| == |Concat(ws)| + |ws| - 1
    ensures ws != [] ==> |ws[0]| <= |r| && r[..|ws[0]|] == ws[0]
    ensures ws == [] ==> r == []
    decreases |ws|
  {
    if ws == [] then []
    else if |ws| == 1 then ws[0]
    else ws[0] + [sep] + Join(ws[1..], sep)
  }

  /**
   * `email.split(" ").join("+")`: the result has no whitespace, and apart
   * from whitespace and `+` it has exactly the characters of `email`, in order.
   */
  function RepairEmail(email: string): (r: string)
    ensures NoSpace(r)
    ensures Bare(r) == Bare(email)
  {
    var ws := Fields(email);
    JoinNoSpace(ws, '+');
    BareOfJoin(ws);
    FieldsCoverText(email);
    BareOfUnspaced(email);
    Join(ws, '+')
  }

  /** Joining with `+` and laying end to end keep the same characters besides `+` and whitespace. */
  lemma {:induction false} BareOfJoin(ws: seq<string>)
    ensures Bare(Join(ws, '+')) == Bare(Concat(ws))
    decreases |ws|
  {
    if |ws| == 1 {
      assert ws[1..] == [] && ws[0] + [] == ws[0];
      assert Concat(ws) == ws[0];
    } else if |ws| > 1 {
      BareOfJoin(ws[1..]);
      var rest := Join(ws[1..], '+');
      BareAppend(ws[0] + ['+'], rest);
      BareAppend(ws[0], ['+']);
      BareAppend(ws[0], Concat(ws[1..]));
    }
  }

  /** Query-string decoding of `+` as a space. */
  function PlusToSpace(s: string): (r: string)
    ensures |r| == |s|
    ensures forall i :: 0 <= i < |s| ==> r[i] == (if s[i] == '+' then ' ' else s[i])
  {
    seq(|s|, i requires 0 <= i < |s| => if s[i] == '+' then ' ' else s[i])
  }

  lemma {:induction false} JoinNoSpace(ws: seq<string>, sep: char)
    requires forall w :: w in ws ==> NoSpace(w)
    requires !IsSpace(sep)
    ensures NoSpace(Join(ws, sep))
  {
    if |ws| > 1 {
      assert forall w :: w in ws[1..] ==> w in ws;
      JoinNoSpace(ws[1..], sep);
      var rest := Join(ws[1..], sep);
      assert ws[0] in ws;
      assert forall i :: 0 <= i < |ws[0] + [sep] + rest| ==>
        (ws[0] + [sep] + rest)[i] == if i < |ws[0]| then ws[0][i] else if i == |ws[0]| then sep else rest[i - |ws[0]| - 1];
    } else if |ws| == 1 {
      assert ws[0] in ws;
    }
  }

  /** A field followed by whitespace (or by nothing) splits off as that field. */
  lemma FieldsOfWord(w: string, t: string)
    requires w != [] && NoSpace(w)
    requires t == [] || IsSpace(t[0])
    ensures Fields(w + t) == [w] + Fields(t)
  {
    var s := w + t;
    var n := WordLength(s);
    assert forall i :: 0 <= i < |w| ==> s[i] == w[i];
    assert |w| < |s| ==> s[|w|] == t[0];
    assert n == |w|;
    assert s[..n] == w;
    assert s[n..] == t;
  }

  lemma {:induction false} FieldsOfSpaceJoin(ws: seq<string>)
    requires forall w :: w in ws ==> w != [] && NoSpace(w)
    ensures Fields(Join(ws, ' ')) == ws
  {
    if |ws| == 1 {
      assert ws[0] in ws;
      FieldsOfWord(ws[0], []);
      assert ws[0] + [] == ws[0];
    } else if |ws| > 1 {
      assert ws[0] in ws;
      assert forall w :: w in ws[1..] ==> w in ws;
      FieldsOfSpaceJoin(ws[1..]);
      FieldsAtSpace(ws[0], ' ', Join(ws[1..], ' '));
      FieldsOfWord(ws[0], []);
      assert ws[0] + [] == ws[0];
      assert ws == [ws[0]] + ws[1..];
    }
  }

  lemma {:induction false} PlusToSpaceOfJoin(ws: seq<string>)
    requires forall w :: w in ws ==> '+' !in w
    ensures PlusToSpace(Join(ws, '+')) == Join(ws, ' ')
  {
    if |ws| == 1 {
      assert ws[0] in ws;
    } else if |ws| > 1 {
      assert ws[0] in ws;
      assert forall w :: w in ws[1..] ==> w in ws;
      PlusToSpaceOfJoin(ws[1..]);
      var a, rest := ws[0], Join(ws[1..], '+');
      PlusToSpaceAppend(a + ['+'], rest);
      PlusToSpaceAppend(a, ['+']);
      PlusToSpaceOfPlain(a);
    }
  }

  lemma PlusToSpaceAppend(x: string, y: string)
    ensures PlusToSpace(x + y) == PlusToSpace(x) + PlusToSpace(y)
  {
    assert forall i :: 0 <= i < |x + y| ==> (x + y)[i] == if i < |x| then x[i] else y[i - |x|];
  }

  lemma PlusToSpaceOfPlain(x: string)
    requires '+' !in x
    ensures PlusToSpace(x) == x
  {
    assert forall i :: 0 <= i < |x| ==> x[i] != '+' by {
      forall i | 0 <= i < |x| ensures x[i] != '+' {
        assert x[i] in x;
      }
    }
  }

  /**
   * An address made of non-empty, space-free parts separated by `+`, after
   * query decoding turned each `+` into a space, is restored exactly.
   */
  lemma RepairUndoesPlusDecoding(parts: seq<string>)
    requires forall w :: w in parts ==> w != [] && NoSpace(w) && '+' !in w
    ensures RepairEmail(PlusToSpace(Join(parts, '+'))) == Join(parts, '+')
  {
    PlusToSpaceOfJoin(parts);
    FieldsOfSpaceJoin(parts);
  }

  /**
   * The repair is lossy where `+` signs are adjacent: after decoding,
   * `a++b` comes back as `a+b`.
   */
  lemma RepairLosesDoubledPlus(a: string, b: string)
    requires a != [] && NoSpace(a) && '+' !in a
    requires b != [] && NoSpace(b) && '+' !in b
    ensures RepairEmail(PlusToSpace(a + ['+', '+'] + b)) == a + ['+'] + b
  {
    var decoded := PlusToSpace(a + ['+', '+'] + b);
    PlusToSpaceAppend(a + ['+', '+'], b);
    PlusToSpaceAppend(a, ['+', '+']);
    PlusToSpaceOfPlain(a);
    PlusToSpaceOfPlain(b);
    var tail := [' '] + ([' '] + b);
    assert decoded == a + tail;
    FieldsOfWord(a, tail);
    assert tail[1..] == [' '] + b && ([' '] + b)[1..] == b;
    FieldsOfWord(b, []);
    assert b + [] == b;
    assert Fields(tail) == [b];
    assert Fields(decoded) == [a, b];
    assert [a, b][1..] == [b];
    assert Join([a, b], '+') == a + ['+'] + b;
    assert RepairEmail(decoded) == Join([a, b], '+');
  }

  /**
   * The repair is lossy at either end: after decoding, a leading or a
   * trailing `+` is dropped.
   */
  lemma RepairLosesEdgePlus(a: string)
    requires a != [] && NoSpace(a) && '+' !in a
    ensures RepairEmail(PlusToSpace(['+'] + a)) == a
    ensures RepairEmail(PlusToSpace(a + ['+'])) == a
  {
    assert PlusToSpace(['+'] + a) == [' '] + a;
    assert ([' '] + a)[1..] == a;
    FieldsOfWord(a, []);
    assert a + [] == a;
    assert PlusToSpace(a + ['+']) == a + [' '];
    FieldsOfWord(a, [' ']);
    assert [' '][1..] == [];
  }

  /** A non-empty address without whitespace passes through unchanged. */
  lemma RepairKeepsCleanAddress(email: string)
    requires email != [] && NoSpace(email)
    ensures RepairEmail(email) == email
  {
    FieldsOfWord(email, []);
    assert email + [] == email;
  }

  /**
   * `join` puts exactly one separator where two non-empty lists meet:
   * with `Join([w], sep) == w`, this fixes `Join` on every input.
   */
  lemma {:induction false} JoinAppend(a: seq<string>, b: seq<string>, sep: char)
    requires a != [] && b != []
    ensures Join(a + b, sep) == Join(a, sep) + [sep] + Join(b, sep)
    decreases |a|
  {
    assert (a + b)[0] == a[0] && (a + b)[1..] == a[1..] + b;
    if |a| > 1 {
      JoinAppend(a[1..], b, sep);
    }
  }

  /** The run of non-whitespace that starts `s` is the one that ends at the first whitespace. */
  lemma WordLengthAt(s: string, n: nat)
    requires s != [] && !IsSpace(s[0])
    requires 1 <= n <= |s|
    requires forall i :: 0 <= i < n ==> !IsSpace(s[i])
    requires n == |s| || IsSpace(s[n])
    ensures WordLength(s) == n
  {
    var m := WordLength(s);
    assert forall i :: 0 <= i < m ==> s[i] == s[..m][i];
  }

  /**
   * `split(" ")` cuts at every whitespace character: the fields on either
   * side of it are split independently.  With `FieldsOfWord`, this fixes
   * `Fields` on every input.
   */
  lemma {:induction false} FieldsAtSpace(a: string, c: char, b: string)
    requires IsSpace(c)
    ensures Fields(a + [c] + b) == Fields(a) + Fields(b)
    decreases |a|
  {
    var s := a + [c] + b;
    if a == [] {
      assert s[0] == c && s[1..] == b;
    } else if IsSpace(a[0]) {
      assert s[0] == a[0] && s[1..] == a[1..] + [c] + b;
      FieldsAtSpace(a[1..], c, b);
    } else {
      var m := WordLength(a);
      assert forall i :: 0 <= i < m ==> s[i] == a[i] && !IsSpace(a[..m][i]);
      assert m < |a| ==> s[m] == a[m];
      assert m == |a| ==> s[m] == c;
      WordLengthAt(s, m);
      assert s[..m] == a[..m];
      assert s[m..] == a[m..] + [c] + b;
      FieldsAtSpace(a[m..], c, b);
      assert Fields(s) == [a[..m]] + Fields(s[m..]);
      assert Fields(a) == [a[..m]] + Fields(a[m..]);
    }
  }

  /**
   * The repair turns a whitespace character into one `+` between the repaired
   * parts on either side, and drops it where either side has no field.
   * With `RepairKeepsCleanAddress`, this fixes the repair on every input.
   */
  lemma RepairAtSpace(a: string, c: char, b: string)
    requires IsSpace(c)
    ensures var left, right := RepairEmail(a), RepairEmail(b);
      RepairEmail(a + [c] + b) == if left == [] then right else if right == [] then left else left + ['+'] + right
  {
    FieldsAtSpace(a, c, b);
    var fa, fb := Fields(a), Fields(b);
    if fa == [] {
      assert fa + fb == fb;
    } else if fb == [] {
      assert fa + fb == fa;
      assert fa[0] in fa;
    } else {
      assert fa[0] in fa && fb[0] in fb;
      JoinAppend(fa, fb, '+');
    }
  }
}
