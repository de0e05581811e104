/** The methods of HTTP requests, by the names under which policies are filed. */
module HttpMethods {
  import opened Matcher

  /** The word of each method number in a request line. */
  const WORDS := ["", "GET", "HEAD", "POST", "PUT", "DELETE", "CONNECT", "OPTIONS", "TRACE", "PATCH"]

  /** The number under which a request's method is looked up; methods not named here go without one. */
  function NumberOf(method_: string): (n: int)
    ensures 0 <= n <= 9
  {
    if method_ == "GET" then 1
    else if method_ == "POST" then 3
    else if method_ == "PUT" then 4
    else if method_ == "PATCH" then 9
    else if method_ == "DELETE" then 5
    else if method_ == "HEAD" then 2
    else if method_ == "OPTIONS" then 7
    else 0
  }

  /** Two strings of one length that differ at a position differ. */
  lemma DifferAt(a: string, b: string, i: nat)
    ensures i < |a| && i < |b| && a[i] != b[i] ==> a != b
  {
  }

  /** The names tell the methods apart. */
  lemma NamesDistinct(m: int, n: int)
    requires 0 <= m < n <= 9
    ensures HttpMethodName(m) != HttpMethodName(n)
  {
    DifferAt(HttpMethodName(m), HttpMethodName(n), 12);
    DifferAt(HttpMethodName(m), HttpMethodName(n), 13);
  }

  /** Each name is the common prefix and the word of its number. */
  lemma NameIsWord(n: int)
    requires 1 <= n <= 9
    ensures HttpMethodName(n) == "HTTP_METHOD_" + WORDS[n]
  {
  }

  /** A request is looked up under the name of a method number if and only if its method is the word of that number;
      CONNECT and TRACE are looked up under none, so policies for them answer no request. */
  lemma VerbServed(method_: string, n: int)
    requires 1 <= n <= 9
    ensures HttpMethodName(NumberOf(method_)) == HttpMethodName(n) <==> method_ == WORDS[n] && n != 6 && n != 8
  {
    var m := NumberOf(method_);
    if m < n {
      NamesDistinct(m, n);
    } else if n < m {
      NamesDistinct(n, m);
    }
  }
}
