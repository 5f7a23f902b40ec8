/** The relative link to the destination page that both the search form and
    the favorites listing build for a query. `encodeURIComponent` is a
    runtime built-in; it enters the model as the parameter `encode`, a total
    function about which nothing else is assumed. */
module Links {

  /** Page and query-parameter name every destination link starts with. */
  const DestinationPrefix: string := "destination.html?query="

  /** `destination.html?query=` followed by the encoded query: the link
      splits back into the fixed prefix and exactly the encoding. */
  function DestinationLink(query: string, encode: string -> string): (url: string)
    ensures |url| == |DestinationPrefix| + |encode(query)|
    ensures url[..|DestinationPrefix|] == DestinationPrefix
    ensures url[|DestinationPrefix|..] == encode(query)
  {
    DestinationPrefix + encode(query)
  }
}
