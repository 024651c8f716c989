// UserInfoManager: the signed-in user's name and avatar, kept in the
// app's key-value preference store.

module UserInfoManager {
  import opened Preferences

  /**
   * A user's avatar: a named vector icon or a drawable resource. The source
   * keeps the icon itself; everything that stores it keeps only its name.
   */
  datatype AvatarType = Icon(iconName: string) | Image(drawableRes: int)

  datatype UserInfo = UserInfo(username: string, avatar: AvatarType)

  const KeyUsername: string := "username"
  const KeyAvatarType: string := "avatar_type"
  const KeyAvatarIconName: string := "avatar_icon_name"
  const KeyAvatarDrawableRes: string := "avatar_drawable_res"

  const TypeIcon: string := "icon"
  const TypeImage: string := "image"

  const DefaultIconName: string := "person"

  /** The resource id of the first bundled avatar image, generated by the build. */
  const DefaultDrawable: int

  const NoUser: UserInfo := UserInfo("", Icon(DefaultIconName))

  /**
   * The store after `saveUserInfo`: the name and the avatar type, then the
   * icon name or the drawable id. The key of the other avatar kind keeps
   * whatever it held.
   */
  function Saved(prefs: Prefs, u: UserInfo): (r: Prefs)
    ensures r.Keys == prefs.Keys + {KeyUsername, KeyAvatarType}
      + (if u.avatar.Icon? then {KeyAvatarIconName} else {KeyAvatarDrawableRes})
    ensures forall k :: k in prefs && k !in {KeyUsername, KeyAvatarType, KeyAvatarIconName, KeyAvatarDrawableRes} ==> r[k] == prefs[k]
  {
    var p := prefs[KeyUsername := Str(u.username)];
    match u.avatar
    case Icon(name) => p[KeyAvatarType := Str(TypeIcon)][KeyAvatarIconName := Str(name)]
    case Image(res) => p[KeyAvatarType := Str(TypeImage)][KeyAvatarDrawableRes := Int(res)]
  }

  /** `getUserInfo`: every missing value falls back to its default, an unknown avatar type to the person icon. */
  function Read(prefs: Prefs): UserInfo {
    var username := GetString(prefs, KeyUsername, "");
    var avatarType := GetString(prefs, KeyAvatarType, TypeIcon);
    var avatar :=
      if avatarType == TypeIcon then Icon(GetString(prefs, KeyAvatarIconName, DefaultIconName))
      else if avatarType == TypeImage then Image(GetInt(prefs, KeyAvatarDrawableRes, DefaultDrawable))
      else Icon(DefaultIconName);
    UserInfo(username, avatar)
  }

  /** `hasUserInfo`: a stored name that is not empty. */
  predicate HasUser(prefs: Prefs) {
    GetString(prefs, KeyUsername, "") != ""
  }

  /** What is saved is read back, whatever the store held before. */
  lemma SaveThenRead(prefs: Prefs, u: UserInfo)
    ensures Read(Saved(prefs, u)) == u
  {
  }

  /** An empty store reads as an empty name with the person icon, and holds no user. */
  lemma EmptyStoreReadsDefaults()
    ensures Read(map[]) == NoUser && !HasUser(map[])
  {
  }

  /** After a save there is a user exactly when the saved name is not empty. */
  lemma HasUserAfterSave(prefs: Prefs, u: UserInfo)
    ensures HasUser(Saved(prefs, u)) <==> u.username != ""
  {
  }

  /** A stored avatar type other than "icon" and "image" reads as the person icon. */
  lemma UnknownTypeReadsPersonIcon(prefs: Prefs, t: string)
    requires KeyAvatarType in prefs && prefs[KeyAvatarType] == Str(t)
    requires t != TypeIcon && t != TypeImage
    ensures Read(prefs).avatar == Icon(DefaultIconName)
  {
  }

  /** An icon saved over an image reads back as the icon, although the image's drawable id stays in the store. */
  lemma IconOverImage(prefs: Prefs, name: string, res: int, u: UserInfo)
    requires u.avatar.Icon?
    ensures var p := Saved(Saved(prefs, UserInfo(name, Image(res))), u);
      KeyAvatarDrawableRes in p && p[KeyAvatarDrawableRes] == Int(res) && Read(p) == u
  {
  }

  class UserInfoManager {
    var storage: Prefs

    /** A manager over the app's preference store, in whatever state it is. */
    constructor(storage: Prefs)
      ensures this.storage == storage
    {
      this.storage := storage;
    }

    /** `saveUserInfo`. */
    method SaveUserInfo(u: UserInfo)
      modifies this
      ensures storage == Saved(old(storage), u)
      ensures GetUserInfo() == u
    {
      storage := storage[KeyUsername := Str(u.username)];
      match u.avatar {
        case Icon(name) =>
          storage := storage[KeyAvatarType := Str(TypeIcon)];
          storage := storage[KeyAvatarIconName := Str(name)];
        case Image(res) =>
          storage := storage[KeyAvatarType := Str(TypeImage)];
          storage := storage[KeyAvatarDrawableRes := Int(res)];
      }
      SaveThenRead(old(storage), u);
    }

    /** `getUserInfo`. */
    function GetUserInfo(): (r: UserInfo)
      reads this
      ensures r.username == "" <==> !HasUser(storage)
      ensures r.avatar.Image? <==> GetString(storage, KeyAvatarType, TypeIcon) == TypeImage
    {
      Read(storage)
    }

    /** `clearUserInfo`: everything goes, so the defaults are read afterwards. */
    method ClearUserInfo()
      modifies this
      ensures storage == map[]
      ensures GetUserInfo() == NoUser && !HasUserInfo()
    {
      storage := map[];
      EmptyStoreReadsDefaults();
    }

    /** `hasUserInfo`. */
    predicate HasUserInfo()
      reads this
    {
      HasUser(storage)
    }
  }
}
