/** Locator classification (`_get_find_method`). */
module Locators {

  /** The Selenium `By` strategy a locator string is resolved with. */
  datatype Strategy = XPath | Id

  /**
   * A locator is an XPath expression when it starts with "//" or "(";
   * any other string, the empty one included, is an element id.
   */
  function FindMethod(locator: string): (s: Strategy)
    ensures s == XPath <==>
      (|locator| >= 2 && locator[0] == '/' && locator[1] == '/') ||
      (|locator| >= 1 && locator[0] == '(')
  {
    if "//" <= locator || "(" <= locator then XPath else Id
  }

  /** The attribute name of `By` the strategy selects ("XPATH" or "ID"). */
  function ByAttribute(s: Strategy): (name: string)
    ensures name == "XPATH" <==> s == XPath
    ensures name == "ID" <==> s == Id
  {
    match s
    case XPath => "XPATH"
    case Id => "ID"
  }

  /** Whatever follows a "//" or "(" prefix, the locator is an XPath. */
  lemma XPathPrefixes(rest: string)
    ensures FindMethod("//" + rest) == XPath
    ensures FindMethod("(" + rest) == XPath
  {
  }

  /** A single slash is not enough: "/html" is treated as an id. */
  lemma SingleSlashIsId(rest: string)
    requires rest == [] || rest[0] != '/'
    ensures FindMethod("/" + rest) == Id
  {
  }
}
