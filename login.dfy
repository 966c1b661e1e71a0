/**
 * The login screen: the two text fields, whether the password is shown in
 * clear, whether the error message is shown, and the authentication flag that
 * the screen shares with its parent view.
 */
module Login {

  /** The one accepted credential pair. */
  const PredefinedUsername: string := "Usuario"
  const PredefinedPassword: string := "123"

  class LoginView {
    var username: string
    var password: string
    var showPassword: bool
    var showError: bool
    /** Bound to the parent view's state: the screen reads and writes it, the parent owns it. */
    var isAuthenticated: bool

    /** The screen as it first appears, over the parent's current flag. */
    constructor (authenticated: bool)
      ensures username == "" && password == ""
      ensures !showPassword && !showError
      ensures isAuthenticated == authenticated
    {
      username, password := "", "";
      showPassword, showError := false, false;
      isAuthenticated := authenticated;
    }

    /** Typing into the username field. */
    method EditUsername(text: string)
      modifies this`username
      ensures username == text
    {
      username := text;
    }

    /** Typing into the password field. */
    method EditPassword(text: string)
      modifies this`password
      ensures password == text
    {
      password := text;
    }

    /**
     * The "Continuar" button. The correct pair sets the flag and leaves the
     * error message as it was; any other pair leaves the flag as it was and
     * shows the error.
     */
    method PressContinue()
      modifies this`isAuthenticated, this`showError
      ensures username == PredefinedUsername && password == PredefinedPassword ==>
                isAuthenticated && showError == old(showError)
      ensures !(username == PredefinedUsername && password == PredefinedPassword) ==>
                isAuthenticated == old(isAuthenticated) && showError
    {
      if username == PredefinedUsername && password == PredefinedPassword {
        isAuthenticated := true;
      } else {
        showError := true;
      }
    }

    /** The eye button beside the password field. */
    method TogglePassword()
      modifies this`showPassword
      ensures showPassword == !old(showPassword)
    {
      showPassword := !showPassword;
    }
  }

  /** Pressing the eye button twice shows the password as it was before. */
  method ToggleTwiceRestores(view: LoginView)
    modifies view`showPassword
    ensures view.showPassword == old(view.showPassword)
  {
    view.TogglePassword();
    view.TogglePassword();
  }

  /** A failed attempt followed by a successful one: signed in, and the error is still shown. */
  method ErrorOutlivesSuccess() returns (view: LoginView)
    ensures view.isAuthenticated && view.showError
  {
    view := new LoginView(false);
    view.EditUsername("usuario");
    view.EditPassword("123");
    view.PressContinue();
    assert !view.isAuthenticated && view.showError;
    view.EditUsername("Usuario");
    view.PressContinue();
  }

  /** A wrong pair never signs the user out. */
  method WrongPairKeepsSession() returns (view: LoginView)
    ensures view.isAuthenticated && view.showError
  {
    view := new LoginView(true);
    view.EditPassword("321");
    view.PressContinue();
  }
}
