/** The parameters of a request. */
module Parameters {

  class Params {
    var m: map<string, string>

    constructor (m: map<string, string>)
      ensures this.m == m
    {
      this.m := m;
    }
  }
}
