/**
 * Record extraction from one CSV row (`parse_list`) and the header lookup
 * that fixes the three column positions (`header.index(...)` in `main`).
 */
module Records {
  import opened Basics
  import opened Text

  /** Python's `xs[i]` on a list: negative indices count from the end, anything else raises IndexError. */
  function PyIndex<T>(xs: seq<T>, i: int): (r: Option<T>)
    ensures r.Some? <==> -|xs| <= i < |xs|
    ensures 0 <= i < |xs| ==> r == Some(xs[i])
  {
    if 0 <= i < |xs| then Some(xs[i])
    else if -|xs| <= i < 0 then Some(xs[|xs| + i])
    else None
  }

  /** The date field exists and `strptime` accepts it. */
  predicate DateParses(line: seq<string>, dateIndex: int)
  {
    PyIndex(line, dateIndex).Some? && ValidYmd(PyIndex(line, dateIndex).value)
  }

  /** The triple `(product, year, company)` that `parse_list` returns; `None` stands for Python's None. */
  datatype Parsed = Parsed(product: Option<string>, year: Option<int>, company: Option<string>)

  /**
   * `parse_list`: the date is parsed first, then the product and the company
   * are read; the first failure ends the `try` block, so every field after it
   * stays None, and no exception leaves the function.
   */
  function ParseList(line: seq<string>, dateIndex: int, prodIndex: int, compIndex: int): (r: Parsed)
    ensures r.year.Some? <==> DateParses(line, dateIndex)
    ensures r.year.Some? ==> r.year.value == YearOf(PyIndex(line, dateIndex).value)
    ensures r.product.Some? ==> r.year.Some?
    ensures r.company.Some? ==> r.product.Some?
    ensures r.year.Some? ==> r.product == PyIndex(line, prodIndex)
    ensures r.product.Some? ==> r.company == PyIndex(line, compIndex)
  {
    match PyIndex(line, dateIndex)
    case None => Parsed(None, None, None)
    case Some(date) =>
      if !ValidYmd(date) then Parsed(None, None, None)
      else
        match PyIndex(line, prodIndex)
        case None => Parsed(None, Some(YearOf(date)), None)
        case Some(product) => Parsed(Some(product), Some(YearOf(date)), PyIndex(line, compIndex))
  }

  /** `header.index(name)`: the first position of `name`, or None where Python raises ValueError. */
  function IndexOf(header: seq<string>, name: string): (r: Option<nat>)
    ensures r.None? <==> name !in header
    ensures r.Some? ==> r.value < |header| && header[r.value] == name && name !in header[..r.value]
  {
    if header == [] then None
    else if header[0] == name then Some(0)
    else
      match IndexOf(header[1..], name)
      case None => None
      case Some(k) =>
        assert header[1..][..k] == header[1..k + 1];
        Some(k + 1)
  }

  /** `name` stands at position `i` and nowhere before it. */
  predicate FirstAt(header: seq<string>, name: string, i: nat)
  {
    i < |header| && header[i] == name && name !in header[..i]
  }

  const DateColumn: string := "Date received"
  const ProductColumn: string := "Product"
  const CompanyColumn: string := "Company"

  /** Positions of the three columns the aggregation reads. */
  datatype Columns = Columns(date: nat, product: nat, company: nat)

  /** The three lookups of `main`; any missing name is the fatal ValueError (None here). */
  function FindColumns(header: seq<string>): (r: Option<Columns>)
    ensures r.Some? <==> DateColumn in header && ProductColumn in header && CompanyColumn in header
    ensures r.Some? ==> && FirstAt(header, DateColumn, r.value.date)
                        && FirstAt(header, ProductColumn, r.value.product)
                        && FirstAt(header, CompanyColumn, r.value.company)
  {
    match (IndexOf(header, DateColumn), IndexOf(header, ProductColumn), IndexOf(header, CompanyColumn))
    case (Some(d), Some(p), Some(c)) => Some(Columns(d, p, c))
    case _ => None
  }
}
