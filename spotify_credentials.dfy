/**
 * USpotifyCredentials: the save-game record that holds the verifier, the
 * challenge and the refresh key.
 */
module Credentials {

  class SpotifyCredentials {
    var verify: string
    var challenge: string
    var refreshKey: string

    constructor ()
      ensures verify == "" && challenge == "" && refreshKey == ""
    {
      verify := "";
      challenge := "";
      refreshKey := "";
    }

    /**
     * Overwrites the three fields with the arguments, whatever they held and
     * whatever the arguments are (empty texts included), so the last call
     * wins; nothing else may change.
     */
    method SetValues(inVerify: string, inChallenge: string, inRefreshKey: string)
      modifies this`verify, this`challenge, this`refreshKey
      ensures verify == inVerify
      ensures challenge == inChallenge
      ensures refreshKey == inRefreshKey
    {
      verify := inVerify;
      challenge := inChallenge;
      refreshKey := inRefreshKey;
    }
  }

  /** Two saves in a row: the second one's values are what the record holds. */
  method SaveTwice(c: SpotifyCredentials, first: (string, string, string), second: (string, string, string))
    modifies c
    ensures (c.verify, c.challenge, c.refreshKey) == second
  {
    c.SetValues(first.0, first.1, first.2);
    c.SetValues(second.0, second.1, second.2);
  }
}
