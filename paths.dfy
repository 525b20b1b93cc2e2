/**
 * `pathlib.Path` values as sequences of components. The empty sequence is the
 * current directory "."; `p / "x"` is `p + ["x"]`.
 */
module FsPaths {
  type Path = seq<string>

  /** `p.name`: the last component ("" for "."). */
  function Name(p: Path): string {
    if p == [] then "" else p[|p| - 1]
  }

  /** `p.parent`: "." is its own parent. */
  function Parent(p: Path): (q: Path)
    ensures p != [] ==> q + [Name(p)] == p
  {
    if p == [] then [] else p[..|p| - 1]
  }

  /** The directories that exist once `p.mkdir(parents=True, exist_ok=True)` returns: `p` and every ancestor of it. */
  function Ancestors(p: Path): (ds: set<Path>)
    ensures p in ds && [] in ds
    ensures forall d :: d in ds ==> |d| <= |p| && d == p[..|d|]
    ensures forall k :: 0 <= k <= |p| ==> p[..k] in ds
  {
    assert p[..|p|] == p && p[..0] == [];
    set k | 0 <= k <= |p| :: p[..k]
  }

  /** `p` is a proper ancestor of `q`: `q` lies somewhere inside directory `p`. */
  predicate Below(p: Path, q: Path) {
    |p| < |q| && q[..|p|] == p
  }

  function Digit(d: nat): char
    requires d < 10
  {
    "0123456789"[d]
  }

  /** `str(n)` for a natural number. */
  function Decimal(n: nat): (s: string)
    ensures s != []
    ensures forall i :: 0 <= i < |s| ==> '0' <= s[i] <= '9'
  {
    if n < 10 then [Digit(n)] else Decimal(n / 10) + [Digit(n % 10)]
  }
}
