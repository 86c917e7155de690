/**
 * The JavaScript values the adapter passes around, made explicit.
 *
 * The adapter leans on loose JavaScript semantics: `isNaN`, truthiness,
 * `x || y` on strings and object keys coerced from `null`. Each of those
 * coercions is written out here once, so that the navigation model can use
 * them by name.
 */
module Values {

  datatype Option<+T> = None | Some(value: T)

  /** A transition duration as the caller passes it (`undefined` is None). */
  type Duration = Option<int>

  /**
   * A substep index as it reaches `goto`, `onAsqSocketGoto` or a step's
   * `active` slot: `undefined`, `null`, `NaN` or an integer.
   */
  datatype SubIdx = Undefined | Null | NaN | Num(n: int)

  /** `isNaN(x)`: true of undefined and NaN, false of null (it converts to 0). */
  predicate IsNaN(x: SubIdx)
    ensures IsNaN(x) ==> !x.Null? && !x.Num?
  {
    x.Undefined? || x.NaN?
  }

  /** `x === null || x === undefined || isNaN(x)`: no usable index was given. */
  predicate NoIndex(x: SubIdx)
    ensures NoIndex(x) <==> x.Null? || IsNaN(x)
  {
    !x.Num?
  }

  /** `!x`: undefined, null, NaN and 0 are falsy. */
  predicate Falsy(x: SubIdx)
    ensures Falsy(x) <==> NoIndex(x) || x == Num(0)
  {
    !x.Num? || x.n == 0
  }

  /**
   * `(!isNaN(x)) ? x : -1`, the value every write to a step's `active` slot
   * stores: null survives, undefined and NaN become -1.
   */
  function Stored(x: SubIdx): (r: SubIdx)
    ensures r.Null? || r.Num?
    ensures r != x ==> IsNaN(x) && r == Num(-1)
  {
    if IsNaN(x) then Num(-1) else x
  }

  /**
   * The substep position `next` computes from a stored value
   * (`if (isNaN(subactive) || subactive == null) subactive = -1`).
   */
  function Effective(x: SubIdx): (n: int)
    ensures x.Num? ==> n == x.n
    ensures NoIndex(x) ==> n == -1
  {
    if x.Num? then x.n else -1
  }

  /** `s || fallback` for an optional string: the empty string is falsy too. */
  function OrElse(s: Option<string>, fallback: Option<string>): (r: Option<string>)
    ensures r == s || r == fallback
    ensures r != fallback ==> r.Some? && r.value != ""
    ensures s.Some? && s.value != "" ==> r == s
  {
    if s.Some? && s.value != "" then s else fallback
  }

  /** The property name a step id becomes when it indexes an object: `null` is "null". */
  function KeyOf(a: Option<string>): (k: string)
    ensures a.Some? ==> k == a.value
    ensures a.None? ==> k == "null"
  {
    match a
    case None => "null"
    case Some(s) => s
  }

  /** Two step ids index the same property exactly when they are equal, or are null and the id "null". */
  lemma KeyOfCollision(a: Option<string>, b: Option<string>)
    ensures KeyOf(a) == KeyOf(b) <==> a == b || (a.None? && b == Some("null")) || (b.None? && a == Some("null"))
  {
  }

  /** The decimal digits of `n`, as `"" + n` writes them. */
  function NatToString(n: nat): (s: string)
    ensures |s| >= 1
    ensures n >= 10 ==> |s| >= 2
    decreases n
  {
    if n < 10 then ["0123456789"[n]] else NatToString(n / 10) + ["0123456789"[n % 10]]
  }

  /** The ten decimal digit characters are distinct. */
  lemma DigitInjective(x: nat, y: nat)
    requires x < 10 && y < 10 && "0123456789"[x] == "0123456789"[y]
    ensures x == y
  {
  }

  /** Distinct numbers print differently, so generated step names never collide. */
  lemma {:induction false} NatToStringInjective(a: nat, b: nat)
    requires NatToString(a) == NatToString(b)
    ensures a == b
    decreases a
  {
    var sa, sb := NatToString(a), NatToString(b);
    if a < 10 && b < 10 {
      DigitInjective(a, b);
    } else if a >= 10 && b >= 10 {
      assert sa[|sa| - 1] == "0123456789"[a % 10];
      assert sb[|sb| - 1] == "0123456789"[b % 10];
      DigitInjective(a % 10, b % 10);
      assert NatToString(a / 10) == sa[..|sa| - 1] == sb[..|sb| - 1] == NatToString(b / 10);
      NatToStringInjective(a / 10, b / 10);
    }
  }

  /**
   * `window.location.hash.replace(/^#\/?/, "")`: the step id a location
   * fragment names, in both the `#id` and the `#/id` form.
   */
  function FragmentId(hash: string): (id: string)
    ensures |id| <= |hash| && id == hash[|hash| - |id|..]
    ensures hash == "#/" + id ||
            (hash == "#" + id && (id == "" || id[0] != '/')) ||
            (hash == id && (hash == "" || hash[0] != '#'))
  {
    if |hash| > 0 && hash[0] == '#' then
      if |hash| > 1 && hash[1] == '/' then hash[2..] else hash[1..]
    else hash
  }

  /** Reading back the fragment `"#/" + id` that entering a step writes gives `id`. */
  lemma FragmentRoundTrip(id: string)
    ensures FragmentId("#/" + id) == id
    ensures |id| > 0 && id[0] != '/' ==> FragmentId("#" + id) == id
  {
    assert ("#/" + id)[2..] == id;
    assert ("#" + id)[1..] == id;
  }
}
