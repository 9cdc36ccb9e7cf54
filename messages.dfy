/**
 * The message keys the registration flow reports. Responses carry keys;
 * turning a key into English or Russian text happens at the boundary and is
 * not part of this model.
 */
module Messages {

  datatype MsgKey = Blank | UsernameSize | NotValid | BeenTaken | PasswordSize | PasswordChars | UserCreated
  {
    /** The key as the source spells it. */
    function Key(): string
    {
      match this
      case Blank => "blank"
      case UsernameSize => "username_size"
      case NotValid => "not_valid"
      case BeenTaken => "been_taken"
      case PasswordSize => "password_size"
      case PasswordChars => "password_chars"
      case UserCreated => "user_created"
    }
  }
}
