/** Cell values of a grouped query: SQL NULL, integers and text, ordered as MySQL
    orders them under ORDER BY ... ASC (NULL first). No column mixes integers and
    text, so the order between those two kinds is only a convention. */
module Values {
  import opened Basics

  datatype Value = Null | Int(i: int) | Str(s: string)

  /** The rank of a value's kind: NULL sorts before every non-NULL value. */
  function KindRank(v: Value): nat
  {
    match v
    case Null => 0
    case Int(_) => 1
    case Str(_) => 2
  }

  predicate ValueLt(a: Value, b: Value)
  {
    if KindRank(a) != KindRank(b) then KindRank(a) < KindRank(b)
    else match (a, b)
      case (Int(x), Int(y)) => x < y
      case (Str(x), Str(y)) => StrLt(x, y)
      case _ => false
  }

  lemma ValueLtIrreflexive(a: Value)
    ensures !ValueLt(a, a)
  {
    if a.Str? {
      StrLtIrreflexive(a.s);
    }
  }

  lemma ValueLtTransitive(a: Value, b: Value, c: Value)
    requires ValueLt(a, b) && ValueLt(b, c)
    ensures ValueLt(a, c)
  {
    if a.Str? && b.Str? && c.Str? {
      StrLtTransitive(a.s, b.s, c.s);
    }
  }

  /** Any two values are equal or one sorts strictly before the other. */
  lemma ValueLtTrichotomy(a: Value, b: Value)
    ensures ValueLt(a, b) || a == b || ValueLt(b, a)
  {
    if a.Str? && b.Str? {
      StrLtTrichotomy(a.s, b.s);
    }
  }

  lemma ValueLtAsymmetric(a: Value, b: Value)
    requires ValueLt(a, b)
    ensures !ValueLt(b, a) && a != b
  {
    if ValueLt(b, a) {
      ValueLtTransitive(a, b, a);
      ValueLtIrreflexive(a);
    }
    if a == b {
      ValueLtIrreflexive(a);
    }
  }

  function OfString(v: Option<string>): (r: Value)
    ensures r == Null <==> v.None?
  {
    match v
    case None => Null
    case Some(s) => Str(s)
  }

  function OfInt(v: Option<int>): (r: Value)
    ensures r == Null <==> v.None?
  {
    match v
    case None => Null
    case Some(n) => Int(n)
  }

  /** A cell of a result table: a plain value, or an exact decimal `units / 10^scale`
      as `ROUND(..., scale)` yields it. */
  datatype Cell = Plain(value: Value) | Decimal(units: int, scale: nat)
}
