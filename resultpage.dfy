/** What both result pages are made of: labelled rows, and the
    `value || 'N/A'` rule for showing a string value. */
module ResultPage {

  /** One `<li><strong>caption:</strong> shown</li>` row of a result page. */
  datatype Row = Row(caption: string, shown: string)

  /** `s || 'N/A'` for a string `s`: the empty string is the only falsy
      string, so it alone is replaced. */
  function OrNA(s: string): (r: string)
    ensures s != "" ==> r == s
    ensures s == "" ==> r == "N/A"
    ensures r != ""
  {
    if s == "" then "N/A" else s
  }

  /** A row reads `N/A` exactly when its value is empty or is itself the
      text `N/A`. */
  lemma OrNAShowsNA(s: string)
    ensures OrNA(s) == "N/A" <==> (s == "" || s == "N/A")
  {
  }
}
