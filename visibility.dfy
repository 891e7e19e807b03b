/** How a module's panel visibility is persisted: two boolean configuration
    keys per operation, `plugins/darkroom/<op>/visible` and
    `plugins/darkroom/<op>/favorite`. The configuration store is a map from
    key to boolean; a key that is absent reads as false. */
module Visibility {
  import opened IopTypes

  /** The configuration store (`dt_conf_*`), updated in place. */
  class Conf {
    var bools: map<string, bool>

    constructor(init: map<string, bool>)
      ensures bools == init
    {
      bools := init;
    }
  }

  function GetBool(c: map<string, bool>, key: string): bool
  {
    key in c && c[key]
  }

  const Prefix: string := "plugins/darkroom/"

  function VisibleKey(op: string): string
  {
    Prefix + op + "/visible"
  }

  function FavoriteKey(op: string): string
  {
    Prefix + op + "/favorite"
  }

  /** The two boolean keys written by `dt_iop_gui_set_state` for a state:
      hidden is (false, false), active is (true, false), favorite is
      (true, true). */
  function EncodeState(c: map<string, bool>, op: string, s: State): (r: map<string, bool>)
    ensures r.Keys == c.Keys + {VisibleKey(op), FavoriteKey(op)}
    ensures GetBool(r, VisibleKey(op)) == (s != Hidden)
    ensures GetBool(r, FavoriteKey(op)) == (s == Favorite)
    ensures forall k :: k in c && k != VisibleKey(op) && k != FavoriteKey(op) ==> r[k] == c[k]
  {
    KeysDistinct(op);
    c[VisibleKey(op) := s != Hidden][FavoriteKey(op) := s == Favorite]
  }

  /** The state read back when a module is loaded with a GUI attached: hidden
      unless `visible` is set, and then favorite exactly when `favorite` is set. */
  function DecodeState(c: map<string, bool>, op: string): (r: State)
    ensures r == Hidden <==> !GetBool(c, VisibleKey(op))
    ensures r == Favorite <==> GetBool(c, VisibleKey(op)) && GetBool(c, FavoriteKey(op))
  {
    if !GetBool(c, VisibleKey(op)) then Hidden
    else if GetBool(c, FavoriteKey(op)) then Favorite
    else Active
  }

  lemma KeysDistinct(op: string)
    ensures VisibleKey(op) != FavoriteKey(op)
  {
    assert |VisibleKey(op)| != |FavoriteKey(op)|;
  }

  /** A visible key is never a favourite key. */
  lemma VisibleNotFavorite(a: string, b: string)
    ensures VisibleKey(a) != FavoriteKey(b)
  {
    if a == b {
      KeysDistinct(a);
    } else {
      KeysInjective(a, b);
    }
  }

  /** Keys of different operations never collide: a `visible` key and a
      `favorite` key differ in their second-to-last character, and two keys of
      the same kind have the operation name at the same place. */
  lemma KeysInjective(a: string, b: string)
    requires a != b
    ensures VisibleKey(a) != VisibleKey(b) && FavoriteKey(a) != FavoriteKey(b)
    ensures VisibleKey(a) != FavoriteKey(b)
  {
    var va, vb, fa, fb := VisibleKey(a), VisibleKey(b), FavoriteKey(a), FavoriteKey(b);
    assert va[|va| - 2] == 'l' && fb[|fb| - 2] == 't';
    if |a| == |b| {
      var k :| 0 <= k < |a| && a[k] != b[k];
      assert va[|Prefix| + k] == a[k] && vb[|Prefix| + k] == b[k];
      assert fa[|Prefix| + k] == a[k] && fb[|Prefix| + k] == b[k];
    } else {
      assert |va| != |vb| && |fa| != |fb|;
    }
  }

  /** Writing a state and reading it back gives the same state. */
  lemma {:induction false} StateRoundTrip(c: map<string, bool>, op: string, s: State)
    ensures DecodeState(EncodeState(c, op, s), op) == s
  {
    KeysDistinct(op);
  }

  /** Writing one operation's state leaves every other operation's state as
      it was. */
  lemma StateIndependent(c: map<string, bool>, op: string, other: string, s: State)
    requires op != other
    ensures DecodeState(EncodeState(c, op, s), other) == DecodeState(c, other)
  {
    KeysInjective(op, other);
    KeysInjective(other, op);
  }
  /** Loading a module with a GUI attached decodes its state and writes it
      straight back: every key reads as before, except that a `favorite`
      flag left set on a hidden operation is cleared. */
  lemma {:induction false} ReencodeDecoded(c: map<string, bool>, op: string, key: string)
    ensures key != FavoriteKey(op) ==> GetBool(EncodeState(c, op, DecodeState(c, op)), key) == GetBool(c, key)
    ensures GetBool(EncodeState(c, op, DecodeState(c, op)), FavoriteKey(op)) ==
              (GetBool(c, VisibleKey(op)) && GetBool(c, FavoriteKey(op)))
  {
    KeysDistinct(op);
  }
}
