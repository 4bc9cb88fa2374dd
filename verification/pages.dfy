/** Lists cut into pages. */
module Pages {

  function Take<T>(s: seq<T>, n: nat): seq<T> {
    if |s| <= n then s else s[..n]
  }

  /** The p-th page, counted from one, of a list served in pages of one size. */
  function Slice<T>(list: seq<T>, size: nat, p: nat): seq<T>
    requires p >= 1
  {
    var from := size * (p - 1);
    if |list| <= from then [] else Take(list[from..], size)
  }
}
