/** The volatile credential session: a secret typed into a fixed buffer, handed to the transport, wiped. */
module AiSession {
  import opened Word
  import opened Text
  import opened HexCodec
  import opened SerialTransport

  datatype AuthMethod = NoAuth | SubscriptionOAuth | ApiKey

  datatype Status =
    | Disconnected | EnteringApiKey | WaitingDeviceLogin | SubscriptionUnsupported | WaitingProvider | InvalidKey

  // ---------------------------------------------------------------- the specification

  // The secret as typed, the method and the state.
  datatype SessionView = SessionView(secret: string, auth: AuthMethod, status: Status)

  const OFFLINE := SessionView("", NoAuth, Disconnected)

  predicate Typable(c: char) {
    33 <= c as int <= 126
  }

  function Capture(s: SessionView, c: char): SessionView {
    if s.status != EnteringApiKey || !Typable(c) || |s.secret| + 1 >= 192 then s
    else s.(secret := s.secret + [c])
  }

  function Backspace(s: SessionView): SessionView {
    if s.status != EnteringApiKey || s.secret == "" then s else s.(secret := s.secret[..|s.secret| - 1])
  }

  // The session after submitting, and what goes over the wire.
  function SubmitKey(s: SessionView, ready: bool): (SessionView, string) {
    if s.status != EnteringApiKey then (s, "")
    else if |s.secret| < 8 || !ready then (s.(secret := "", status := InvalidKey), "")
    else (s.(secret := "", status := WaitingProvider), KeyFrame(s.secret))
  }

  // The whole buffer: the typed text, and zeros behind it.
  function Buffer(secret: string): string
    requires |secret| <= 192
  {
    secret + seq(192 - |secret|, _ => NUL)
  }

  ghost predicate SessionInv(s: SessionView) {
    && |s.secret| <= 191
    && (forall i :: 0 <= i < |s.secret| ==> Typable(s.secret[i]))
    && (s.status != EnteringApiKey ==> s.secret == "")
  }

  // ---------------------------------------------------------------- the session

  class Session {
    const transport: Transport
    const secret: array<char>
    var length: nat
    var auth: AuthMethod
    var status: Status

    // While a key is entered the buffer is the typed text and zeros; in every other state it is all zeros.
    ghost predicate Valid()
      reads this, secret
    {
      && secret.Length == 192 && length <= 191
      && secret[..] == Buffer(secret[..length])
      && SessionInv(View())
    }

    ghost function View(): SessionView
      requires length <= secret.Length
      reads this, secret
    {
      SessionView(secret[..length], auth, status)
    }

    constructor (transport: Transport)
      ensures this.transport == transport && Valid() && View() == OFFLINE && fresh(secret)
    {
      this.transport := transport;
      secret := new char[192](_ => NUL);
      length, auth, status := 0, NoAuth, Disconnected;
      new;
      assert secret[..0] == "";
    }

    method WipeSecret()
      requires Valid()
      modifies `length, secret
      ensures length == 0 && secret[..] == Buffer("") && secret[..0] == ""
    {
      var i := 0;
      while i < secret.Length
        invariant i <= 192 && forall j :: 0 <= j < i ==> secret[j] == NUL
      {
        secret[i] := NUL;
        i := i + 1;
      }
      length := 0;
    }

    method BeginSubscriptionLogin()
      requires Valid()
      modifies this, secret
      ensures Valid() && View() == SessionView("", SubscriptionOAuth, SubscriptionUnsupported)
    {
      WipeSecret();
      auth := SubscriptionOAuth;
      status := SubscriptionUnsupported;
    }

    method BeginApiKey()
      requires Valid()
      modifies this, secret
      ensures Valid() && View() == SessionView("", ApiKey, EnteringApiKey)
    {
      WipeSecret();
      auth := ApiKey;
      status := EnteringApiKey;
    }

    method CaptureCharacter(c: char) returns (taken: bool)
      requires Valid()
      modifies `length, secret
      ensures Valid() && View() == Capture(old(View()), c)
      ensures taken == (View() != old(View()))
    {
      if status != EnteringApiKey || (c as int) < 33 || c as int > 126 || length + 1 >= 192 {
        return false;
      }
      secret[length] := c;
      length := length + 1;
      secret[length] := NUL;
      assert secret[..length] == old(secret[..length]) + [c];
      return true;
    }

    method EraseCharacter()
      requires Valid()
      modifies `length, secret
      ensures Valid() && View() == Backspace(old(View()))
    {
      if status != EnteringApiKey || length == 0 {
        return;
      }
      length := length - 1;
      secret[length] := NUL;
      assert secret[..length] == old(secret[..length])[..length];
    }

    method SubmitApiKey()
      requires Valid()
      modifies this, secret, transport`sent
      ensures Valid()
      ensures (View(), transport.sent) ==
              var (s, frame) := SubmitKey(old(View()), transport.ready); (s, old(transport.sent) + frame)
    {
      Unit(transport.sent);
      if status != EnteringApiKey {
        return;
      }
      if length < 8 {
        WipeSecret();
        status := InvalidKey;
        return;
      }
      CStrUnique(secret[..], length);
      hide CStr, KeyFrame;
      var sent := transport.SendApiKey(secret[..]);
      WipeSecret();
      status := if sent then WaitingProvider else InvalidKey;
    }

    method CancelSession()
      requires Valid()
      modifies this, secret
      ensures Valid() && View() == OFFLINE
    {
      WipeSecret();
      auth := NoAuth;
      status := Disconnected;
    }
  }
}
