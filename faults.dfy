/** The exceptions that escape the controller, one constructor per throw site. */
module Faults {

  datatype Fault =
    | NullSearchString      // `searchString.ToString()` on a null header value
    | RequestFailed         // the request failed without a usable redirect response
    | NoHtmlBody            // "Search Results could not be loaded - no HTML body found"
    | StartIndexOutOfRange  // `IndexOf` called with a start index outside the string
    | NullTargetUrl         // `targetUrl.ToLower()` on a null header value
    | Diverges              // `GetAllIndexesOf` with an empty marker never returns
}
